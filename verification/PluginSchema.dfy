/** All plugins of a schema at once: `generatePluginMappingFromRegistry` of src/schema.class.ts.
    One set of used keys runs through the plugins, but the stored keys of a plugin enter it only
    at that plugin's turn. */
module PluginSchema {
  import opened Numerals
  import opened Registry
  import opened PluginKeys
  import opened SchemaMap

  datatype PluginGroup = PluginGroup(pluginName: string, keys: seq<string>)

  ghost predicate DistinctGroups(groups: seq<PluginGroup>) {
    forall i, j | 0 <= i < j < |groups| :: groups[i].pluginName != groups[j].pluginName
  }

  // An attribute belongs to one plugin.
  ghost predicate DistinctNames(groups: seq<PluginGroup>) {
    forall i, j, a | 0 <= i < |groups| && 0 <= j < |groups| && a in groups[i].keys && a in groups[j].keys :: i == j
  }

  function StoredFor(existing: map<string, PluginRegistry>, g: PluginGroup): PluginRegistry {
    if g.pluginName in existing then existing[g.pluginName] else NO_KEYS
  }

  // The flat maps: each listed attribute with its key, the last writer winning.
  function Record(maps: Maps, m: map<string, string>, keys: seq<string>): Maps
    requires forall k | k in keys :: k in m
  {
    if keys == [] then maps
    else
      var front, last := Record(maps, m, keys[..|keys| - 1]), keys[|keys| - 1];
      Maps(front.full[last := m[last]], front.reversed[m[last] := last])
  }

  // Flat maps and used keys after the plugins handled so far.
  datatype State = State(maps: Maps, used: set<string>)

  ghost function Seeded(used: set<string>, r: PluginRegistry): Keys {
    Keys(r.mapping, used + StoredKeys(r))
  }

  ghost function AssignedIn(hash: Hash, used: set<string>, existing: map<string, PluginRegistry>,
                            g: PluginGroup): (s: Keys)
    ensures forall k | k in g.keys :: k in s.mapping
    ensures used <= s.used && StoredKeys(StoredFor(existing, g)) <= s.used
  {
    var start := Seeded(used, StoredFor(existing, g));
    AssignDomain(hash, g.pluginName, start, g.keys);
    Assign(hash, g.pluginName, start, g.keys)
  }

  ghost function AllPlugins(hash: Hash, groups: seq<PluginGroup>, existing: map<string, PluginRegistry>): State {
    if groups == [] then State(Maps(map[], map[]), {})
    else
      var front, g := AllPlugins(hash, groups[..|groups| - 1], existing), groups[|groups| - 1];
      var s := AssignedIn(hash, front.used, existing, g);
      State(Record(front.maps, s.mapping, g.keys), s.used)
  }

  ghost function UsedBefore(hash: Hash, groups: seq<PluginGroup>, existing: map<string, PluginRegistry>,
                            i: nat): set<string>
    requires i <= |groups|
  {
    AllPlugins(hash, groups[..i], existing).used
  }

  // The key the attribute a of plugin i ends up with.
  ghost function KeyOf(hash: Hash, groups: seq<PluginGroup>, existing: map<string, PluginRegistry>, i: nat,
                       a: string): string
    requires i < |groups| && a in groups[i].keys
  {
    AssignedIn(hash, UsedBefore(hash, groups, existing, i), existing, groups[i]).mapping[a]
  }

  lemma AllPluginsNext(hash: Hash, groups: seq<PluginGroup>, existing: map<string, PluginRegistry>, i: nat)
    requires i < |groups|
    ensures var s := AssignedIn(hash, UsedBefore(hash, groups, existing, i), existing, groups[i]);
      AllPlugins(hash, groups[..i + 1], existing)
          == State(Record(AllPlugins(hash, groups[..i], existing).maps, s.mapping, groups[i].keys), s.used)
  {
    assert groups[..i + 1][..i] == groups[..i];
  }

  // The loop over one plugin's attributes.

  lemma {:induction false} RecordAgrees(maps: Maps, m: map<string, string>, m': map<string, string>, keys: seq<string>)
    requires forall k | k in keys :: k in m && k in m' && m[k] == m'[k]
    ensures Record(maps, m, keys) == Record(maps, m', keys)
  {
    if keys != [] {
      RecordAgrees(maps, m, m', keys[..|keys| - 1]);
    }
  }

  lemma AssignNext(hash: Hash, plugin: string, s: Keys, keys: seq<string>, i: nat)
    requires Shaped(hash) && i < |keys|
    requires forall k | k in keys[..i] :: k in Assign(hash, plugin, s, keys[..i]).mapping
    ensures var before, after := Assign(hash, plugin, s, keys[..i]), Assign(hash, plugin, s, keys[..i + 1]);
      && after == AssignOne(hash, plugin, before, keys[i])
      && (HasKey(before.mapping, keys[i]) <==> HasKey(s.mapping, keys[i]) || keys[i] in keys[..i])
      && (LacksKey(s.mapping, keys[..i + 1]) <==> LacksKey(s.mapping, keys[..i]) || !HasKey(before.mapping, keys[i]))
  {
    assert keys[..i + 1][..i] == keys[..i] && keys[..i + 1] == keys[..i] + [keys[i]];
    KeyKnown(hash, plugin, s, keys[..i], keys[i]);
  }

  lemma RecordSnoc(hash: Hash, plugin: string, maps: Maps, s: Keys, keys: seq<string>, i: nat)
    requires Shaped(hash) && i < |keys|
    requires forall k | k in keys[..i] :: k in Assign(hash, plugin, s, keys[..i]).mapping
    ensures forall k | k in keys[..i] + [keys[i]] :: k in Assign(hash, plugin, s, keys[..i + 1]).mapping
    ensures keys[..i + 1] == keys[..i] + [keys[i]]
    ensures var m, m' := Assign(hash, plugin, s, keys[..i]).mapping, Assign(hash, plugin, s, keys[..i + 1]).mapping;
      var front := Record(maps, m, keys[..i]);
      Record(maps, m', keys[..i] + [keys[i]])
          == Maps(front.full[keys[i] := m'[keys[i]]], front.reversed[m'[keys[i]] := keys[i]])
  {
    var m, m' := Assign(hash, plugin, s, keys[..i]).mapping, Assign(hash, plugin, s, keys[..i + 1]).mapping;
    AssignNext(hash, plugin, s, keys, i);
    forall k | k in keys[..i]
      ensures k in m' && m'[k] == m[k]
    {
      KeyKnown(hash, plugin, s, keys[..i], k);
    }
    assert (keys[..i] + [keys[i]])[..i] == keys[..i];
    RecordAgrees(maps, m, m', keys[..i]);
  }

  method AssignPluginKeys(hash: Hash, plugin: string, s: Keys, keys: seq<string>, maps: Maps)
    returns (s': Keys, maps': Maps, grew: bool)
    requires Shaped(hash)
    ensures s' == Assign(hash, plugin, s, keys)
    ensures (forall k | k in keys :: k in s'.mapping) && maps' == Record(maps, s'.mapping, keys)
    ensures grew == LacksKey(s.mapping, keys)
  {
    s', maps', grew := s, maps, false;
    for i := 0 to |keys|
      invariant s' == Assign(hash, plugin, s, keys[..i])
      invariant forall k | k in keys[..i] :: k in s'.mapping
      invariant maps' == Record(maps, s'.mapping, keys[..i])
      invariant grew == LacksKey(s.mapping, keys[..i])
    {
      AssignNext(hash, plugin, s, keys, i);
      RecordSnoc(hash, plugin, maps, s, keys, i);
      var a := keys[i];
      if !HasKey(s'.mapping, a) {
        var key, n := Probe(hash(plugin, a), s'.used);
        s' := Keys(s'.mapping[a := key], s'.used + {key});
        grew := true;
      }
      maps' := Maps(maps'.full[a := s'.mapping[a]], maps'.reversed[s'.mapping[a] := a]);
    }
    assert keys[..|keys|] == keys;
  }

  // The body of the loop over plugins.
  method EvolvePlugin(hash: Hash, g: PluginGroup, existing: map<string, PluginRegistry>, state: State)
    returns (registry: PluginRegistry, state': State, changed: bool)
    requires Shaped(hash)
    ensures PluginStep(hash, g.pluginName, state.used, StoredFor(existing, g), g.keys, registry)
    ensures changed == PluginChanged(StoredFor(existing, g), g.keys, registry)
    ensures var s := AssignedIn(hash, state.used, existing, g);
      state' == State(Record(state.maps, s.mapping, g.keys), s.used)
  {
    var r := StoredFor(existing, g);
    var start := Keys(r.mapping, state.used + StoredKeys(r));
    var s, maps, grew := AssignPluginKeys(hash, g.pluginName, start, g.keys, state.maps);
    AssignDomain(hash, g.pluginName, start, g.keys);
    var mapping, burned, burnedAny := BurnRemoved(s.mapping, g.keys, r.burned);
    assert Without(s.mapping, g.keys) == Without(r.mapping, g.keys);
    registry, state', changed := PluginRegistry(mapping, burned), State(maps, s.used), grew || burnedAny;
  }

  // The loop over plugins.

  function Names(groups: seq<PluginGroup>): set<string> {
    set g | g in groups :: g.pluginName
  }

  ghost predicate Stepped(hash: Hash, groups: seq<PluginGroup>, existing: map<string, PluginRegistry>,
                          registries: map<string, PluginRegistry>, i: nat)
    requires i < |groups|
  {
    var g := groups[i];
    g.pluginName in registries
    && PluginStep(hash, g.pluginName, UsedBefore(hash, groups, existing, i), StoredFor(existing, g), g.keys,
        registries[g.pluginName])
  }

  ghost predicate AllStepped(hash: Hash, groups: seq<PluginGroup>, existing: map<string, PluginRegistry>,
                             registries: map<string, PluginRegistry>, n: nat)
    requires n <= |groups|
  {
    forall i: nat | i < n :: Stepped(hash, groups, existing, registries, i)
  }

  ghost predicate ChangedAt(groups: seq<PluginGroup>, existing: map<string, PluginRegistry>,
                            registries: map<string, PluginRegistry>, i: nat)
    requires i < |groups|
  {
    var g := groups[i];
    g.pluginName in registries && PluginChanged(StoredFor(existing, g), g.keys, registries[g.pluginName])
  }

  ghost predicate SomeChanged(groups: seq<PluginGroup>, existing: map<string, PluginRegistry>,
                              registries: map<string, PluginRegistry>, n: nat)
    requires n <= |groups|
  {
    exists i: nat :: i < n && ChangedAt(groups, existing, registries, i)
  }

  // Filing the registry of the next plugin leaves the others as they are.

  lemma NamesNext(groups: seq<PluginGroup>, i: nat)
    requires i < |groups|
    ensures Names(groups[..i + 1]) == Names(groups[..i]) + {groups[i].pluginName}
  {
    assert groups[..i + 1] == groups[..i] + [groups[i]];
  }

  lemma SteppedNext(hash: Hash, groups: seq<PluginGroup>, existing: map<string, PluginRegistry>,
                    registries: map<string, PluginRegistry>, i: nat, r: PluginRegistry)
    requires DistinctGroups(groups) && i < |groups| && AllStepped(hash, groups, existing, registries, i)
    requires PluginStep(hash, groups[i].pluginName, UsedBefore(hash, groups, existing, i),
        StoredFor(existing, groups[i]), groups[i].keys, r)
    ensures AllStepped(hash, groups, existing, registries[groups[i].pluginName := r], i + 1)
  {
    var registries' := registries[groups[i].pluginName := r];
    forall j: nat | j < i + 1
      ensures Stepped(hash, groups, existing, registries', j)
    {
      assert j < i ==> Stepped(hash, groups, existing, registries, j);
    }
  }

  lemma ChangedNext(groups: seq<PluginGroup>, existing: map<string, PluginRegistry>,
                    registries: map<string, PluginRegistry>, i: nat, r: PluginRegistry)
    requires DistinctGroups(groups) && i < |groups|
    ensures var g := groups[i];
      SomeChanged(groups, existing, registries[g.pluginName := r], i + 1) <==>
      SomeChanged(groups, existing, registries, i) || PluginChanged(StoredFor(existing, g), g.keys, r)
  {
    var registries' := registries[groups[i].pluginName := r];
    forall j: nat | j < i
      ensures ChangedAt(groups, existing, registries, j) <==> ChangedAt(groups, existing, registries', j)
    {
    }
    assert ChangedAt(groups, existing, registries', i)
        <==> PluginChanged(StoredFor(existing, groups[i]), groups[i].keys, r);
  }

  method EvolveAll(hash: Hash, groups: seq<PluginGroup>, existing: map<string, PluginRegistry>)
    returns (mapping: map<string, string>, reversedMapping: map<string, string>,
        registries: map<string, PluginRegistry>, changed: bool)
    requires Shaped(hash) && DistinctGroups(groups)
    ensures mapping == AllPlugins(hash, groups, existing).maps.full
        && reversedMapping == AllPlugins(hash, groups, existing).maps.reversed
    ensures registries.Keys == Names(groups)
    ensures AllStepped(hash, groups, existing, registries, |groups|)
    ensures changed == SomeChanged(groups, existing, registries, |groups|)
  {
    var state := State(Maps(map[], map[]), {});
    registries, changed := map[], false;
    for i := 0 to |groups|
      invariant state == AllPlugins(hash, groups[..i], existing)
      invariant registries.Keys == Names(groups[..i])
      invariant AllStepped(hash, groups, existing, registries, i)
      invariant changed == SomeChanged(groups, existing, registries, i)
    {
      AllPluginsNext(hash, groups, existing, i);
      var registry, state', grew := EvolvePlugin(hash, groups[i], existing, state);
      NamesNext(groups, i);
      SteppedNext(hash, groups, existing, registries, i, registry);
      ChangedNext(groups, existing, registries, i, registry);
      registries := registries[groups[i].pluginName := registry];
      state, changed := state', changed || grew;
    }
    assert groups[..|groups|] == groups;
    mapping, reversedMapping := state.maps.full, state.maps.reversed;
  }

  // Grouping: a JavaScript Map from plugin to keys, in order of first appearance.

  function AddAttribute(groups: seq<PluginGroup>, x: PluginAttribute): seq<PluginGroup> {
    if groups == [] then [PluginGroup(x.pluginName, [x.key])]
    else if groups[0].pluginName == x.pluginName
        then [PluginGroup(x.pluginName, groups[0].keys + [x.key])] + groups[1..]
    else [groups[0]] + AddAttribute(groups[1..], x)
  }

  function Grouped(attributes: seq<PluginAttribute>): seq<PluginGroup> {
    if attributes == [] then [] else AddAttribute(Grouped(attributes[..|attributes| - 1]), attributes[|attributes| - 1])
  }

  ghost predicate InGroup(groups: seq<PluginGroup>, p: string, a: string) {
    exists g :: g in groups && g.pluginName == p && a in g.keys
  }

  lemma {:induction false} AddAttributeFacts(groups: seq<PluginGroup>, x: PluginAttribute)
    requires DistinctGroups(groups)
    ensures DistinctGroups(AddAttribute(groups, x))
    ensures Names(AddAttribute(groups, x)) == Names(groups) + {x.pluginName}
    ensures forall p, a ::
              InGroup(AddAttribute(groups, x), p, a) <==> InGroup(groups, p, a) || (p == x.pluginName && a == x.key)
  {
    var after := AddAttribute(groups, x);
    if groups == [] {
      assert PluginGroup(x.pluginName, [x.key]) in after;
    } else {
      var head, rest := groups[0], groups[1..];
      assert groups == [head] + rest;
      GroupsCons(head, rest);
      if head.pluginName == x.pluginName {
        GroupsCons(PluginGroup(x.pluginName, head.keys + [x.key]), rest);
      } else {
        AddAttributeFacts(rest, x);
        GroupsCons(head, AddAttribute(rest, x));
      }
    }
  }

  lemma GroupsCons(head: PluginGroup, rest: seq<PluginGroup>)
    ensures DistinctGroups([head] + rest) <==> DistinctGroups(rest) && head.pluginName !in Names(rest)
    ensures Names([head] + rest) == {head.pluginName} + Names(rest)
    ensures forall p, a ::
              InGroup([head] + rest, p, a) <==> (p == head.pluginName && a in head.keys) || InGroup(rest, p, a)
  {
    assert forall g :: g in [head] + rest <==> g == head || g in rest;
    if DistinctGroups([head] + rest) {
      DistinctTail(head, rest);
    }
  }

  lemma DistinctTail(head: PluginGroup, rest: seq<PluginGroup>)
    requires DistinctGroups([head] + rest)
    ensures DistinctGroups(rest) && head.pluginName !in Names(rest)
  {
    var all := [head] + rest;
    forall i, j | 0 <= i < j < |rest|
      ensures rest[i].pluginName != rest[j].pluginName
    {
      assert all[i + 1] == rest[i] && all[j + 1] == rest[j];
    }
    forall g | g in rest
      ensures g.pluginName != head.pluginName
    {
      var i :| 0 <= i < |rest| && rest[i] == g;
      assert all[0] == head && all[i + 1] == g;
    }
  }

  lemma {:induction false} GroupedFacts(attributes: seq<PluginAttribute>)
    ensures DistinctGroups(Grouped(attributes))
    ensures forall p, a :: InGroup(Grouped(attributes), p, a) <==> PluginAttribute(a, p) in attributes
  {
    if attributes != [] {
      var front, last := attributes[..|attributes| - 1], attributes[|attributes| - 1];
      assert attributes == front + [last];
      GroupedFacts(front);
      AddAttributeFacts(Grouped(front), last);
    }
  }

  /** Each attribute is in the group of its plugin and in no other. */
  lemma GroupedNames(attributes: seq<PluginAttribute>)
    requires DistinctKeys(attributes)
    ensures DistinctNames(Grouped(attributes))
  {
    var groups := Grouped(attributes);
    GroupedFacts(attributes);
    forall i, j, a | 0 <= i < |groups| && 0 <= j < |groups| && a in groups[i].keys && a in groups[j].keys
      ensures i == j
    {
      assert InGroup(groups, groups[i].pluginName, a) && InGroup(groups, groups[j].pluginName, a);
      SamePlugin(attributes, PluginAttribute(a, groups[i].pluginName), PluginAttribute(a, groups[j].pluginName));
    }
  }

  lemma SamePlugin(attributes: seq<PluginAttribute>, x: PluginAttribute, y: PluginAttribute)
    requires DistinctKeys(attributes) && x in attributes && y in attributes && x.key == y.key
    ensures x == y
  {
    var i :| 0 <= i < |attributes| && attributes[i] == x;
    var j :| 0 <= j < |attributes| && attributes[j] == y;
  }

  method GroupByPlugin(attributes: seq<PluginAttribute>) returns (groups: seq<PluginGroup>)
    ensures groups == Grouped(attributes)
  {
    groups := [];
    for i := 0 to |attributes|
      invariant groups == Grouped(attributes[..i])
    {
      assert attributes[..i + 1][..i] == attributes[..i];
      groups := AddAttribute(groups, attributes[i]);
    }
    assert attributes[..|attributes|] == attributes;
  }

  // The maps and registries a call leaves, all keys being texts.
  ghost predicate Generated(hash: Hash, attributes: seq<PluginAttribute>, existing: map<string, PluginRegistry>,
                            maps: Maps, registries: map<string, PluginRegistry>, changed: bool) {
    var groups := Grouped(attributes);
    && maps == AllPlugins(hash, groups, existing).maps
    && registries.Keys == Names(groups)
    && AllStepped(hash, groups, existing, registries, |groups|)
    && changed == SomeChanged(groups, existing, registries, |groups|)
  }

  method EvolveGrouped(hash: Hash, attributes: seq<PluginAttribute>, existing: map<string, PluginRegistry>)
    returns (maps: Maps, registries: map<string, PluginRegistry>, changed: bool)
    requires Shaped(hash)
    ensures Generated(hash, attributes, existing, maps, registries, changed)
  {
    GroupedFacts(attributes);
    var groups := GroupByPlugin(attributes);
    var mapping, reversedMapping;
    mapping, reversedMapping, registries, changed := EvolveAll(hash, groups, existing);
    maps := Maps(mapping, reversedMapping);
  }

  // A registry as it was stored: its keys need not be texts.
  datatype RawKey = Text(t: string) | NotText
  datatype RawRegistry = RawRegistry(mapping: map<string, RawKey>, burned: seq<Burned<RawKey>>)

  predicate WellTyped(raw: RawRegistry) {
    && (forall a | a in raw.mapping :: raw.mapping[a].Text?)
    && (forall k | 0 <= k < |raw.burned| :: raw.burned[k].index.Text?)
  }

  function Typed(raw: RawRegistry): PluginRegistry
    requires WellTyped(raw)
  {
    PluginRegistry(map a | a in raw.mapping :: raw.mapping[a].t,
                   seq(|raw.burned|,
                       k requires 0 <= k < |raw.burned| => Burned(raw.burned[k].index.t, raw.burned[k].attribute)))
  }

  function TypedAll(existing: map<string, RawRegistry>): map<string, PluginRegistry> {
    map p | p in existing && WellTyped(existing[p]) :: Typed(existing[p])
  }

  // A plugin with attributes has a stored entry that is no text.
  ghost predicate Corrupt(attributes: seq<PluginAttribute>, existing: map<string, RawRegistry>) {
    exists x :: x in attributes && x.pluginName in existing && !WellTyped(existing[x.pluginName])
  }

  datatype PluginResult = Thrown | Result(maps: Maps, registries: map<string, PluginRegistry>, changed: bool)

  /** All plugins of a schema: each one with attributes gets exactly one step of its stored
      registry, seeing the keys used before its turn; plugins without attributes are dropped. A
      stored entry that is no text makes the call throw, if its plugin has attributes. */
  method GeneratePluginMappingFromRegistry(hash: Hash, attributes: seq<PluginAttribute>,
                                           existing: map<string, RawRegistry>)
    returns (result: PluginResult)
    requires Shaped(hash)
    ensures result.Thrown? <==> Corrupt(attributes, existing)
    ensures result.Result?
        ==> Generated(hash, attributes, TypedAll(existing), result.maps, result.registries, result.changed)
  {
    for i := 0 to |attributes|
      invariant forall j | 0 <= j < i && attributes[j].pluginName in existing ::
          WellTyped(existing[attributes[j].pluginName])
    {
      if attributes[i].pluginName in existing && !WellTyped(existing[attributes[i].pluginName]) {
        return Thrown;
      }
    }
    var maps, registries, changed := EvolveGrouped(hash, attributes, TypedAll(existing));
    result := Result(maps, registries, changed);
  }

  // What the flat maps hold.

  lemma {:induction false} RecordFacts(maps: Maps, m: map<string, string>, keys: seq<string>)
    requires Tied(maps) && forall k | k in keys :: k in m && k !in maps.full
    ensures Tied(Record(maps, m, keys))
    ensures forall a :: a in Record(maps, m, keys).full <==> a in maps.full || a in keys
    ensures forall a | a in maps.full :: Record(maps, m, keys).full[a] == maps.full[a]
    ensures forall a | a in keys :: Record(maps, m, keys).full[a] == m[a]
  {
    if keys != [] {
      var front, last := keys[..|keys| - 1], keys[|keys| - 1];
      RecordFacts(maps, m, front);
      assert forall a :: a in keys <==> a in front || a == last;
      PutTied(Record(maps, m, front), last, m[last]);
    }
  }

  lemma PutTied(maps: Maps, a: string, t: string)
    requires Tied(maps) && (a in maps.full ==> maps.full[a] == t)
    ensures Tied(Maps(maps.full[a := t], maps.reversed[t := a]))
  {
  }

  ghost predicate OwnedBy(groups: seq<PluginGroup>, i: nat, a: string) {
    i < |groups| && a in groups[i].keys
  }

  ghost predicate Listed(groups: seq<PluginGroup>, n: nat, a: string) {
    exists i: nat :: i < n && OwnedBy(groups, i, a)
  }

  lemma ListedNext(groups: seq<PluginGroup>, n: nat)
    ensures forall a :: Listed(groups, n + 1, a) <==> Listed(groups, n, a) || OwnedBy(groups, n, a)
  {
    forall a
      ensures Listed(groups, n + 1, a) <==> Listed(groups, n, a) || OwnedBy(groups, n, a)
    {
      if i: nat :| i < n && OwnedBy(groups, i, a) {
        assert i < n + 1;
      }
    }
  }

  // The flat maps after n plugins list their attributes, and nothing else.
  lemma {:induction false} FlatDomain(hash: Hash, groups: seq<PluginGroup>, existing: map<string, PluginRegistry>,
                                      n: nat)
    requires DistinctNames(groups) && n <= |groups|
    ensures Tied(AllPlugins(hash, groups[..n], existing).maps)
    ensures forall a :: a in AllPlugins(hash, groups[..n], existing).maps.full <==> Listed(groups, n, a)
  {
    if n > 0 {
      FlatDomain(hash, groups, existing, n - 1);
      PluginAdded(hash, groups, existing, n, AllPlugins(hash, groups[..n - 1], existing).maps);
      ListedNext(groups, n - 1);
    }
  }

  lemma PluginAdded(hash: Hash, groups: seq<PluginGroup>, existing: map<string, PluginRegistry>, n: nat, before: Maps)
    requires DistinctNames(groups) && 0 < n <= |groups| && before == AllPlugins(hash, groups[..n - 1], existing).maps
    requires Tied(before) && forall a | a in before.full :: Listed(groups, n - 1, a)
    ensures var after := AllPlugins(hash, groups[..n], existing).maps;
      && Tied(after)
      && (forall a :: a in after.full <==> a in before.full || OwnedBy(groups, n - 1, a))
      && (forall a | a in before.full :: after.full[a] == before.full[a])
      && (forall a | OwnedBy(groups, n - 1, a) :: after.full[a] == KeyOf(hash, groups, existing, n - 1, a))
  {
    var s := AssignedIn(hash, UsedBefore(hash, groups, existing, n - 1), existing, groups[n - 1]);
    AllPluginsNext(hash, groups, existing, n - 1);
    forall k | k in groups[n - 1].keys
      ensures k !in before.full
    {
      assert OwnedBy(groups, n - 1, k);
    }
    RecordFacts(before, s.mapping, groups[n - 1].keys);
  }

  lemma {:induction false} FlatValue(hash: Hash, groups: seq<PluginGroup>, existing: map<string, PluginRegistry>,
                                     n: nat, i: nat, a: string)
    requires DistinctNames(groups) && i < n <= |groups| && OwnedBy(groups, i, a)
    ensures a in AllPlugins(hash, groups[..n], existing).maps.full
    ensures AllPlugins(hash, groups[..n], existing).maps.full[a] == KeyOf(hash, groups, existing, i, a)
    decreases n
  {
    FlatDomain(hash, groups, existing, n - 1);
    PluginAdded(hash, groups, existing, n, AllPlugins(hash, groups[..n - 1], existing).maps);
    if i < n - 1 {
      FlatValue(hash, groups, existing, n - 1, i, a);
    }
  }

  lemma {:induction false} UsedGrows(hash: Hash, groups: seq<PluginGroup>, existing: map<string, PluginRegistry>,
                                     i: nat, j: nat)
    requires i <= j <= |groups|
    ensures UsedBefore(hash, groups, existing, i) <= UsedBefore(hash, groups, existing, j)
    decreases j
  {
    if i < j {
      UsedGrows(hash, groups, existing, i, j - 1);
      AllPluginsNext(hash, groups, existing, j - 1);
    }
  }

  // A key is either the stored one or one no earlier plugin and no stored entry of this plugin had.
  lemma KeyOrigin(hash: Hash, groups: seq<PluginGroup>, existing: map<string, PluginRegistry>, i: nat, a: string)
    requires Shaped(hash) && OwnedBy(groups, i, a)
    ensures var r, key := StoredFor(existing, groups[i]), KeyOf(hash, groups, existing, i, a);
      && key in UsedBefore(hash, groups, existing, i + 1)
      && (if HasKey(r.mapping, a) then key == r.mapping[a] && key in StoredKeys(r)
          else key !in UsedBefore(hash, groups, existing, i) && key !in StoredKeys(r))
  {
    var used, r := UsedBefore(hash, groups, existing, i), StoredFor(existing, groups[i]);
    AssignDomain(hash, groups[i].pluginName, Seeded(used, r), groups[i].keys);
    AssignFacts(hash, groups[i].pluginName, Seeded(used, r), groups[i].keys);
    AllPluginsNext(hash, groups, existing, i);
    if !HasKey(r.mapping, a) {
      assert FreshKey(Seeded(used, r), AssignedIn(hash, used, existing, groups[i]), a);
    }
  }

  lemma SamePluginDistinct(hash: Hash, groups: seq<PluginGroup>, existing: map<string, PluginRegistry>, i: nat,
                           a: string, b: string)
    requires Shaped(hash) && OwnedBy(groups, i, a) && OwnedBy(groups, i, b)
        && SingleHolder(StoredFor(existing, groups[i]))
    requires KeyOf(hash, groups, existing, i, a) == KeyOf(hash, groups, existing, i, b)
    ensures a == b
  {
    KeyOrigin(hash, groups, existing, i, a);
    KeyOrigin(hash, groups, existing, i, b);
    var r := StoredFor(existing, groups[i]);
    if HasKey(r.mapping, a) {
      assert Holds(r, a, r.mapping[a]) && Holds(r, b, r.mapping[a]);
    } else {
      AssignFacts(hash, groups[i].pluginName, Seeded(UsedBefore(hash, groups, existing, i), r), groups[i].keys);
    }
  }

  lemma FlatShape(hash: Hash, groups: seq<PluginGroup>, existing: map<string, PluginRegistry>)
    requires Shaped(hash) && DistinctNames(groups)
    requires forall g | g in groups :: AllPluginKeys(StoredFor(existing, g).mapping)
    ensures forall t | t in AllPlugins(hash, groups, existing).maps.reversed :: IsPluginKey(t)
  {
    var maps := AllPlugins(hash, groups, existing).maps;
    assert groups[..|groups|] == groups;
    FlatDomain(hash, groups, existing, |groups|);
    forall t | t in maps.reversed
      ensures IsPluginKey(t)
    {
      var i: nat :| i < |groups| && OwnedBy(groups, i, maps.reversed[t]);
      FlatValue(hash, groups, existing, |groups|, i, maps.reversed[t]);
      KeyShape(hash, groups, existing, i, maps.reversed[t]);
    }
  }

  lemma KeyShape(hash: Hash, groups: seq<PluginGroup>, existing: map<string, PluginRegistry>, i: nat, a: string)
    requires Shaped(hash) && OwnedBy(groups, i, a) && AllPluginKeys(StoredFor(existing, groups[i]).mapping)
    ensures IsPluginKey(KeyOf(hash, groups, existing, i, a))
  {
    var start := Seeded(UsedBefore(hash, groups, existing, i), StoredFor(existing, groups[i]));
    AssignShape(hash, groups[i].pluginName, start, groups[i].keys);
    KeyKnown(hash, groups[i].pluginName, start, groups[i].keys, a);
  }

  // Plugin j has stored, for an attribute it still has, a key that an earlier plugin ended up with.
  ghost predicate Late(hash: Hash, groups: seq<PluginGroup>, existing: map<string, PluginRegistry>, i: nat, j: nat,
                       a: string, b: string) {
    && i < j && OwnedBy(groups, i, a) && OwnedBy(groups, j, b)
    && HasKey(StoredFor(existing, groups[j]).mapping, b)
    && KeyOf(hash, groups, existing, i, a) == StoredFor(existing, groups[j]).mapping[b]
  }

  ghost predicate SomeLate(hash: Hash, groups: seq<PluginGroup>, existing: map<string, PluginRegistry>) {
    exists i: nat, j: nat, a, b :: Late(hash, groups, existing, i, j, a, b)
  }

  lemma SharedIsLate(hash: Hash, groups: seq<PluginGroup>, existing: map<string, PluginRegistry>, i: nat, j: nat,
                     a: string, b: string)
    requires Shaped(hash) && i < j && OwnedBy(groups, i, a) && OwnedBy(groups, j, b)
    ensures KeyOf(hash, groups, existing, i, a) == KeyOf(hash, groups, existing, j, b)
        <==> Late(hash, groups, existing, i, j, a, b)
  {
    KeyOrigin(hash, groups, existing, i, a);
    KeyOrigin(hash, groups, existing, j, b);
    UsedGrows(hash, groups, existing, i + 1, j);
  }

  /** Over all plugins, keys are distinct and the flat reverse map is the exact inverse precisely
      when no plugin's stored key was taken by a plugin handled before it. */
  lemma PluginMapsInverse(hash: Hash, groups: seq<PluginGroup>, existing: map<string, PluginRegistry>)
    requires Shaped(hash) && DistinctNames(groups)
    requires forall g | g in groups :: SingleHolder(StoredFor(existing, g))
    ensures var maps := AllPlugins(hash, groups, existing).maps;
      Inverse(maps.full, maps.reversed) <==> !SomeLate(hash, groups, existing)
  {
    var maps := AllPlugins(hash, groups, existing).maps;
    assert groups[..|groups|] == groups;
    FlatDomain(hash, groups, existing, |groups|);
    InjectiveInverse(maps);
    if i: nat, j: nat, a, b :| Late(hash, groups, existing, i, j, a, b) {
      FlatValue(hash, groups, existing, |groups|, i, a);
      FlatValue(hash, groups, existing, |groups|, j, b);
      SharedIsLate(hash, groups, existing, i, j, a, b);
      assert a != b && maps.full[a] == maps.full[b];
    } else {
      forall a, b | a in maps.full && b in maps.full && maps.full[a] == maps.full[b]
        ensures a == b
      {
        SharedKeySame(hash, groups, existing, maps, a, b);
      }
    }
  }

  lemma SharedKeySame(hash: Hash, groups: seq<PluginGroup>, existing: map<string, PluginRegistry>, maps: Maps,
                      a: string, b: string)
    requires Shaped(hash) && DistinctNames(groups) && maps == AllPlugins(hash, groups[..|groups|], existing).maps
    requires forall g | g in groups :: SingleHolder(StoredFor(existing, g))
    requires !SomeLate(hash, groups, existing)
    requires a in maps.full && b in maps.full && maps.full[a] == maps.full[b]
    ensures a == b
  {
    FlatDomain(hash, groups, existing, |groups|);
    var i: nat :| i < |groups| && OwnedBy(groups, i, a);
    var j: nat :| j < |groups| && OwnedBy(groups, j, b);
    FlatValue(hash, groups, existing, |groups|, i, a);
    FlatValue(hash, groups, existing, |groups|, j, b);
    if i < j {
      SharedIsLate(hash, groups, existing, i, j, a, b);
    } else if j < i {
      SharedIsLate(hash, groups, existing, j, i, b, a);
    } else {
      SamePluginDistinct(hash, groups, existing, i, a, b);
    }
  }

  // The same in terms of what a caller can look at: the stored registries and the hashes.

  // Plugin `plugin`, with stored registry r, could give attribute a the key.
  ghost predicate CanTake(hash: Hash, plugin: string, r: PluginRegistry, a: string, key: string) {
    if HasKey(r.mapping, a) then r.mapping[a] == key else IsCandidateOf(hash(plugin, a), key)
  }

  // No plugin's stored key is within reach of a plugin handled before it.
  ghost predicate OutOfReach(hash: Hash, groups: seq<PluginGroup>, existing: map<string, PluginRegistry>) {
    forall i: nat, j: nat, a, b | i < j && OwnedBy(groups, i, a) && OwnedBy(groups, j, b)
        && HasKey(StoredFor(existing, groups[j]).mapping, b) ::
      !CanTake(hash, groups[i].pluginName, StoredFor(existing, groups[i]), a, StoredFor(existing, groups[j]).mapping[b])
  }

  lemma KeyWithinReach(hash: Hash, groups: seq<PluginGroup>, existing: map<string, PluginRegistry>, i: nat, a: string)
    requires Shaped(hash) && OwnedBy(groups, i, a)
    ensures CanTake(hash, groups[i].pluginName, StoredFor(existing, groups[i]), a, KeyOf(hash, groups, existing, i, a))
  {
    KeyOrigin(hash, groups, existing, i, a);
    AssignCandidates(hash, groups[i].pluginName,
        Seeded(UsedBefore(hash, groups, existing, i), StoredFor(existing, groups[i])), groups[i].keys);
  }

  /** The flat maps are inverse whenever no stored key is a candidate of an attribute without a
      key, or the key of another attribute, of a plugin handled before. */
  lemma OutOfReachInverse(hash: Hash, groups: seq<PluginGroup>, existing: map<string, PluginRegistry>)
    requires Shaped(hash) && DistinctNames(groups) && OutOfReach(hash, groups, existing)
    requires forall g | g in groups :: SingleHolder(StoredFor(existing, g))
    ensures !SomeLate(hash, groups, existing)
    ensures Inverse(AllPlugins(hash, groups, existing).maps.full, AllPlugins(hash, groups, existing).maps.reversed)
  {
    forall i: nat, j: nat, a, b
      ensures !Late(hash, groups, existing, i, j, a, b)
    {
      if i < j && OwnedBy(groups, i, a) {
        KeyWithinReach(hash, groups, existing, i, a);
      }
    }
    PluginMapsInverse(hash, groups, existing);
  }

  // The stored keys of attributes still there are bare hashes, without a suffix.
  ghost predicate BareKeys(groups: seq<PluginGroup>, existing: map<string, PluginRegistry>) {
    forall j: nat, b | OwnedBy(groups, j, b) && HasKey(StoredFor(existing, groups[j]).mapping, b) ::
        |StoredFor(existing, groups[j]).mapping[b]| == 4
  }

  // The key is stored for plugin i or a plugin handled before it.
  ghost predicate StoredUpTo(groups: seq<PluginGroup>, existing: map<string, PluginRegistry>, i: nat, key: string)
    requires i < |groups|
  {
    exists k: nat :: k <= i && key in StoredKeys(StoredFor(existing, groups[k]))
  }

  // The stored key of plugin j's attribute b is also stored for attribute a of an earlier plugin,
  // or is the hash of one without a key while no plugin up to that one has it stored.
  ghost predicate Meets(hash: Hash, groups: seq<PluginGroup>, existing: map<string, PluginRegistry>, i: nat, j: nat,
                        a: string, b: string) {
    && i < j && OwnedBy(groups, i, a) && OwnedBy(groups, j, b)
    && HasKey(StoredFor(existing, groups[j]).mapping, b)
    && var r, key := StoredFor(existing, groups[i]), StoredFor(existing, groups[j]).mapping[b];
      if HasKey(r.mapping, a) then r.mapping[a] == key
      else hash(groups[i].pluginName, a) == key && !StoredUpTo(groups, existing, i, key)
  }

  ghost predicate SomeMeet(hash: Hash, groups: seq<PluginGroup>, existing: map<string, PluginRegistry>) {
    exists i: nat, j: nat, a, b :: Meets(hash, groups, existing, i, j, a, b)
  }

  // A used key was stored for some plugin so far or is the key of one of its attributes.
  ghost predicate GivenUpTo(hash: Hash, groups: seq<PluginGroup>, existing: map<string, PluginRegistry>, i: nat,
                            key: string) {
    exists k: nat, a :: k < i && OwnedBy(groups, k, a) && KeyOf(hash, groups, existing, k, a) == key
  }

  lemma {:induction false} UsedOrigin(hash: Hash, groups: seq<PluginGroup>, existing: map<string, PluginRegistry>,
                                      n: nat, key: string)
    requires Shaped(hash) && 0 < n <= |groups| && key in UsedBefore(hash, groups, existing, n)
    ensures StoredUpTo(groups, existing, n - 1, key) || GivenUpTo(hash, groups, existing, n, key)
  {
    var i := n - 1;
    AllPluginsNext(hash, groups, existing, i);
    var start := Seeded(UsedBefore(hash, groups, existing, i), StoredFor(existing, groups[i]));
    var s := AssignedIn(hash, UsedBefore(hash, groups, existing, i), existing, groups[i]);
    AssignCandidates(hash, groups[i].pluginName, start, groups[i].keys);
    if key !in start.used {
      assert Assigned(start, s, groups[i].keys, key);
      var a :| a in groups[i].keys && a in s.mapping && s.mapping[a] == key;
      assert OwnedBy(groups, i, a) && KeyOf(hash, groups, existing, i, a) == key;
    } else if i > 0 && key in UsedBefore(hash, groups, existing, i) {
      UsedOrigin(hash, groups, existing, i, key);
    }
  }

  lemma LateMeets(hash: Hash, groups: seq<PluginGroup>, existing: map<string, PluginRegistry>, i: nat, j: nat,
                  a: string, b: string)
    requires Shaped(hash) && BareKeys(groups, existing) && Late(hash, groups, existing, i, j, a, b)
    ensures Meets(hash, groups, existing, i, j, a, b)
  {
    var key := KeyOf(hash, groups, existing, i, a);
    KeyOrigin(hash, groups, existing, i, a);
    KeyWithinReach(hash, groups, existing, i, a);
    if !HasKey(StoredFor(existing, groups[i]).mapping, a) {
      var n: nat :| key == Candidate(hash(groups[i].pluginName, a), n);
      PrintShape(n, 10);
      if k: nat :| k <= i && key in StoredKeys(StoredFor(existing, groups[k])) {
        StoredIsUsed(hash, groups, existing, k);
        if k < i {
          UsedGrows(hash, groups, existing, k + 1, i);
        }
      }
    }
  }

  lemma StoredIsUsed(hash: Hash, groups: seq<PluginGroup>, existing: map<string, PluginRegistry>, k: nat)
    requires k < |groups|
    ensures StoredKeys(StoredFor(existing, groups[k])) <= UsedBefore(hash, groups, existing, k + 1)
  {
    AllPluginsNext(hash, groups, existing, k);
  }

  lemma MeetsIsLate(hash: Hash, groups: seq<PluginGroup>, existing: map<string, PluginRegistry>, i: nat, j: nat,
                    a: string, b: string)
    requires Shaped(hash) && Meets(hash, groups, existing, i, j, a, b)
    ensures SomeLate(hash, groups, existing)
  {
    var r, key := StoredFor(existing, groups[i]), StoredFor(existing, groups[j]).mapping[b];
    KeyOrigin(hash, groups, existing, i, a);
    if HasKey(r.mapping, a) {
      assert Late(hash, groups, existing, i, j, a, b);
    } else {
      AssignCandidates(hash, groups[i].pluginName, Seeded(UsedBefore(hash, groups, existing, i), r), groups[i].keys);
      AllPluginsNext(hash, groups, existing, i);
      UsedOrigin(hash, groups, existing, i + 1, key);
      var k: nat, c :| k < i + 1 && OwnedBy(groups, k, c) && KeyOf(hash, groups, existing, k, c) == key;
      assert Late(hash, groups, existing, k, j, c, b);
    }
  }

  /** When stored keys carry no suffix, the flat maps are inverse exactly unless a stored key is
      stored for an attribute of an earlier plugin too, or is the hash of an attribute without a
      key of an earlier plugin and not stored for any plugin up to that one. */
  lemma BareKeysInverse(hash: Hash, groups: seq<PluginGroup>, existing: map<string, PluginRegistry>)
    requires Shaped(hash) && DistinctNames(groups) && BareKeys(groups, existing)
    requires forall g | g in groups :: SingleHolder(StoredFor(existing, g))
    ensures SomeLate(hash, groups, existing) <==> SomeMeet(hash, groups, existing)
    ensures Inverse(AllPlugins(hash, groups, existing).maps.full, AllPlugins(hash, groups, existing).maps.reversed)
        <==> !SomeMeet(hash, groups, existing)
  {
    if i: nat, j: nat, a, b :| Late(hash, groups, existing, i, j, a, b) {
      LateMeets(hash, groups, existing, i, j, a, b);
    }
    if i: nat, j: nat, a, b :| Meets(hash, groups, existing, i, j, a, b) {
      MeetsIsLate(hash, groups, existing, i, j, a, b);
    }
    PluginMapsInverse(hash, groups, existing);
  }

  /** In particular they are whenever no registry is stored yet: on the first build. */
  lemma FirstBuildInverse(hash: Hash, groups: seq<PluginGroup>)
    requires Shaped(hash) && DistinctNames(groups)
    ensures Inverse(AllPlugins(hash, groups, map[]).maps.full, AllPlugins(hash, groups, map[]).maps.reversed)
  {
    PluginMapsInverse(hash, groups, map[]);
  }

  /** It does happen: a plugin without a registry that comes first takes the stored key of the
      second one exactly when its attribute hashes to it. */
  lemma StoredKeyTaken(hash: Hash, p: string, q: string, a: string, b: string, key: string)
    requires Shaped(hash) && p != q && a != b && key != ""
    ensures var maps := AllPlugins(hash, [PluginGroup(p, [a]), PluginGroup(q, [b])],
        map[q := PluginRegistry(map[b := key], [])]).maps;
      Inverse(maps.full, maps.reversed) <==> key != hash(p, a)
  {
    var groups, existing := [PluginGroup(p, [a]), PluginGroup(q, [b])], map[q := PluginRegistry(map[b := key], [])];
    PluginMapsInverse(hash, groups, existing);
    assert KeyOf(hash, groups, existing, 0, a) == hash(p, a) by {
      assert groups[..0] == [] && {} + StoredKeys(NO_KEYS) == {};
      FirstAssigned(hash, p, a);
    }
    if key == hash(p, a) {
      assert Late(hash, groups, existing, 0, 1, a, b);
    }
  }
}
