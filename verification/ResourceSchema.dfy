/** Building a resource's schema (src/resource.class.ts): eagerly, with two registry steps
    around the automatic timestamps, or lazily, with one step on first use. */
module ResourceSchema {
  import opened Numerals
  import opened Options
  import opened PluginKeys
  import opened PluginSchema
  import opened Registry
  import opened RegistryRuns
  import opened SchemaMap

  const TIMESTAMPS: seq<string> := ["createdAt", "updatedAt"]

  // The user keys after `applyConfiguration` added the timestamps that were not declared;
  // `others` are the names declared as plugin attributes.
  function WithTimestamps(keys: seq<string>, others: set<string>, timestamps: bool): (full: seq<string>)
    ensures keys <= full
    ensures forall t | t in full[|keys|..] :: t in TIMESTAMPS && t !in keys && t !in others
    ensures timestamps ==> forall t | t in TIMESTAMPS :: t in full || t in others
  {
    if !timestamps then keys
    else
      var created := if "createdAt" in keys || "createdAt" in others then keys else keys + ["createdAt"];
      var full := if "updatedAt" in created || "updatedAt" in others then created else created + ["updatedAt"];
      assert forall t | t in full[|keys|..] :: t in ["createdAt", "updatedAt"];
      full
  }

  /** createdAt comes before updatedAt, each only if neither kind of attribute has its name. */
  lemma TimestampOrder(keys: seq<string>, others: set<string>)
    ensures WithTimestamps(keys, others, false) == keys
    ensures var created, updated := "createdAt" in keys || "createdAt" in others,
                "updatedAt" in keys || "updatedAt" in others;
      && (!created && !updated ==> WithTimestamps(keys, others, true) == keys + ["createdAt", "updatedAt"])
      && (!created && updated ==> WithTimestamps(keys, others, true) == keys + ["createdAt"])
      && (created && !updated ==> WithTimestamps(keys, others, true) == keys + ["updatedAt"])
      && (created && updated ==> WithTimestamps(keys, others, true) == keys)
  {
    assert (keys + ["createdAt"]) + ["updatedAt"] == keys + ["createdAt", "updatedAt"];
    assert "createdAt" != "updatedAt";
  }

  // The attributes object; the resource and its pending configuration share one.
  class Attributes {
    var keys: seq<string>
    const plugins: seq<PluginAttribute>

    constructor (keys: seq<string>, plugins: seq<PluginAttribute>)
      ensures this.keys == keys && this.plugins == plugins
    {
      this.keys, this.plugins := keys, plugins;
    }

    function PluginNames(): set<string> {
      set x | x in plugins :: x.key
    }

    predicate Declares(name: string)
      reads this
    {
      name in keys || name in PluginNames()
    }

    method AddTimestamps()
      modifies this
      ensures keys == WithTimestamps(old(keys), PluginNames(), true)
    {
      if "createdAt" !in keys && "createdAt" !in PluginNames() {
        keys := keys + ["createdAt"];
      }
      if "updatedAt" !in keys && "updatedAt" !in PluginNames() {
        keys := keys + ["updatedAt"];
      }
    }
  }

  // What constructing a schema leaves.
  datatype Compiled = Compiled(user: Maps, plugin: Maps, registry: Option<SchemaRegistry>,
                               pluginRegistries: Option<map<string, PluginRegistry>>)

  // From an explicit map if there is one, merged with the registry if there is one; else from one
  // step of the registry; else by position.
  ghost predicate CompilesUser(keys: seq<string>, m: map<string, string>, r: Option<SchemaRegistry>, c: Compiled) {
    if m != map[] then
      (match r
       case None => Injective(m) && c.registry == None && c.user == Maps(m, Invert(m))
       case Some(before) => c.registry.Some? && Merged(m, before, keys, c.user, c.registry.value))
    else
      (match r
       case None => c.registry == None && c.user == Maps(PositionalMap(keys), PositionalReverse(keys))
       case Some(before) =>
         && c.registry.Some? && Step(before, keys, c.registry.value) && Covers(c.registry.value.mapping, keys)
         && c.user == Maps(KeyTexts(c.registry.value.mapping, keys),
             Reverse(KeyTexts(c.registry.value.mapping, keys), keys)))
  }

  ghost predicate CompilesPlugins(hash: Hash, plugins: seq<PluginAttribute>,
                                  existing: Option<map<string, PluginRegistry>>, c: Compiled) {
    match existing
    case None =>
      c.pluginRegistries == None
          && c.plugin == Maps(PluginMap(hash, plugins).mapping, PluginMap(hash, plugins).reversed)
    case Some(stored) =>
      var groups := Grouped(plugins);
      && c.pluginRegistries.Some? && c.pluginRegistries.value.Keys == Names(groups)
      && AllStepped(hash, groups, stored, c.pluginRegistries.value, |groups|)
      && c.plugin == AllPlugins(hash, groups, stored).maps
  }

  ghost predicate Compiles(hash: Hash, keys: seq<string>, plugins: seq<PluginAttribute>, m: map<string, string>,
                           r: Option<SchemaRegistry>, existing: Option<map<string, PluginRegistry>>, c: Compiled) {
    CompilesUser(keys, m, r, c) && CompilesPlugins(hash, plugins, existing, c)
  }

  // Without the explicit map first, and again with it once the timestamps are in.
  ghost predicate CompilesTwice(hash: Hash, keys: seq<string>, full: seq<string>, plugins: seq<PluginAttribute>,
                                m: map<string, string>,
                                r: Option<SchemaRegistry>, existing: Option<map<string, PluginRegistry>>, c: Compiled) {
    exists first :: CompilesAfter(hash, keys, full, plugins, m, r, existing, first, c)
  }

  ghost predicate CompilesAfter(hash: Hash, keys: seq<string>, full: seq<string>, plugins: seq<PluginAttribute>,
                                m: map<string, string>,
                                r: Option<SchemaRegistry>, existing: Option<map<string, PluginRegistry>>,
                                    first: Compiled, c: Compiled) {
    && Compiles(hash, keys, plugins, map[], r, existing, first)
    && Compiles(hash, full, plugins, m, After(r, first.registry), After(existing, first.pluginRegistries), c)
  }

  lemma Twice(hash: Hash, keys: seq<string>, full: seq<string>, plugins: seq<PluginAttribute>, m: map<string, string>,
              r: Option<SchemaRegistry>, existing: Option<map<string, PluginRegistry>>, first: Compiled, c: Compiled)
    requires CompilesAfter(hash, keys, full, plugins, m, r, existing, first, c)
    ensures CompilesTwice(hash, keys, full, plugins, m, r, existing, c)
  {
  }

  method UserMaps(keys: seq<string>, m: map<string, string>, r: Option<SchemaRegistry>)
    returns (user: Maps, r': Option<SchemaRegistry>)
    requires m == map[] || ValidMap(m)
    ensures forall plugin, ps :: CompilesUser(keys, m, r, Compiled(user, plugin, r', ps))
  {
    if m != map[] {
      if r.Some? {
        var registry, changed;
        user, registry, changed := MergeMap(m, r.value, keys);
        r' := Some(registry);
      } else {
        user, r' := Maps(m, Invert(m)), None;
      }
    } else if r.Some? {
      var mapping, reversed, registry, changed := GenerateMappingFromRegistry(keys, r);
      user, r' := Maps(mapping, reversed), Some(registry);
    } else {
      var mapping, reversed := GenerateBase36Mapping(keys);
      user, r' := Maps(mapping, reversed), None;
    }
  }

  method PluginMapsOf(hash: Hash, plugins: seq<PluginAttribute>, existing: Option<map<string, PluginRegistry>>)
    returns (plugin: Maps, registries: Option<map<string, PluginRegistry>>)
    requires Shaped(hash)
    ensures forall user, r :: CompilesPlugins(hash, plugins, existing, Compiled(user, plugin, r, registries))
  {
    if existing.Some? {
      var evolved, changed;
      plugin, evolved, changed := EvolveGrouped(hash, plugins, existing.value);
      registries := Some(evolved);
    } else {
      var mapping, reversed := GeneratePluginMapping(hash, plugins);
      plugin, registries := Maps(mapping, reversed), None;
    }
  }

  method NewSchema(hash: Hash, keys: seq<string>, plugins: seq<PluginAttribute>, m: map<string, string>,
                   r: Option<SchemaRegistry>, existing: Option<map<string, PluginRegistry>>) returns (c: Compiled)
    requires Shaped(hash) && (m == map[] || ValidMap(m))
    ensures Compiles(hash, keys, plugins, m, r, existing, c)
  {
    var user, r' := UserMaps(keys, m, r);
    var plugin, registries := PluginMapsOf(hash, plugins, existing);
    c := Compiled(user, plugin, r', registries);
  }

  class Resource {
    var attributes: Attributes
    var registry: Option<SchemaRegistry>
    var pluginRegistries: Option<map<string, PluginRegistry>>
    var pending: Attributes?                  // the deferred configuration of a lazy resource
    var schema: Option<Compiled>
    const explicitMap: map<string, string>
    const hash: Hash
    const lazy: bool
    const timestamps: bool

    ghost predicate Valid()
      reads this
    {
      && Shaped(hash)
      && (schema.Some? <==> pending == null)
      && (!lazy ==> schema.Some? && (explicitMap == map[] || ValidMap(explicitMap)))
    }

    // `new Resource`. With a map that fails validation eager construction throws, after the
    // timestamps were added: null.
    static method Create(hash: Hash, declared: Attributes, explicitMap: map<string, string>,
                         registry: Option<SchemaRegistry>,
                         pluginRegistries: Option<map<string, PluginRegistry>>, lazy: bool, timestamps: bool)
                             returns (resource: Resource?)
      requires Shaped(hash)
      modifies declared
      ensures resource == null <==> !lazy && explicitMap != map[] && !ValidMap(explicitMap)
      ensures declared.keys == WithTimestamps(old(declared.keys), declared.PluginNames(), timestamps)
      ensures resource != null ==>
          fresh(resource) && resource.Valid() && resource.lazy == lazy && resource.attributes == declared
    {
      var check := ValidateMapEncoding(explicitMap);
      if !lazy && explicitMap != map[] && check != MapCheck.Valid {
        if timestamps {
          declared.AddTimestamps();
        }
        return null;
      }
      resource := new Resource(hash, declared, explicitMap, registry, pluginRegistries, lazy, timestamps);
    }

    constructor (hash: Hash, declared: Attributes, explicitMap: map<string, string>, registry: Option<SchemaRegistry>,
                 pluginRegistries: Option<map<string, PluginRegistry>>, lazy: bool, timestamps: bool)
      requires Shaped(hash) && (lazy || explicitMap == map[] || ValidMap(explicitMap))
      modifies declared
      ensures Valid() && this.hash == hash && this.lazy == lazy && this.timestamps == timestamps
          && this.explicitMap == explicitMap
      ensures attributes == declared
          && declared.keys == WithTimestamps(old(declared.keys), declared.PluginNames(), timestamps)
      ensures lazy ==>
          pending == declared && schema == None && this.registry == registry
          && this.pluginRegistries == pluginRegistries
      ensures !lazy ==>
          schema.Some? && this.registry == After(registry, schema.value.registry)
          && this.pluginRegistries == After(pluginRegistries, schema.value.pluginRegistries)
      ensures !lazy ==>
          CompilesTwice(hash, old(declared.keys), declared.keys, declared.plugins, explicitMap, registry,
          pluginRegistries, schema.value)
    {
      this.hash, this.lazy, this.timestamps, this.explicitMap := hash, lazy, timestamps, explicitMap;
      this.attributes := declared;
      this.registry, this.pluginRegistries := registry, pluginRegistries;
      this.pending := if lazy then declared else null;
      this.schema := None;
      new;
      if lazy {
        ApplyConfiguration();
      } else {
        BuildEagerly();
      }
    }

    // The constructor's schema, then the one `applyConfiguration` replaces it with.
    method BuildEagerly()
      requires !lazy && Shaped(hash) && (explicitMap == map[] || ValidMap(explicitMap))
      modifies this`schema, this`registry, this`pluginRegistries, attributes
      ensures attributes.keys == WithTimestamps(old(attributes.keys), attributes.PluginNames(), timestamps)
      ensures schema.Some?
      ensures CompilesTwice(hash, old(attributes.keys), attributes.keys, attributes.plugins, explicitMap,
          old(registry), old(pluginRegistries), schema.value)
      ensures registry == After(old(registry), schema.value.registry)
          && pluginRegistries == After(old(pluginRegistries), schema.value.pluginRegistries)
    {
      var first := NewSchema(hash, attributes.keys, attributes.plugins, map[], registry, pluginRegistries);
      SetSchema(first);
      ApplyConfiguration();
      Twice(hash, old(attributes.keys), attributes.keys, attributes.plugins, explicitMap, old(registry),
          old(pluginRegistries), first, schema.value);
    }

    // `_setSchema`: what a schema leaves open keeps the resource's own value.
    method SetSchema(c: Compiled)
      modifies this`schema, this`registry, this`pluginRegistries
      ensures schema == Some(c)
      ensures registry == if c.registry.Some? then c.registry else old(registry)
      ensures pluginRegistries == if c.pluginRegistries.Some? then c.pluginRegistries else old(pluginRegistries)
    {
      schema := Some(c);
      registry := After(registry, c.registry);
      pluginRegistries := After(pluginRegistries, c.pluginRegistries);
    }

    method ApplyConfiguration()
      requires Shaped(hash) && (lazy || explicitMap == map[] || ValidMap(explicitMap))
      modifies this`schema, this`registry, this`pluginRegistries, attributes
      ensures attributes.keys == WithTimestamps(old(attributes.keys), attributes.PluginNames(), timestamps)
      ensures timestamps && !old(attributes.Declares("createdAt")) && !old(attributes.Declares("updatedAt")) ==>
          attributes.keys == old(attributes.keys) + ["createdAt", "updatedAt"]
      ensures timestamps && !old(attributes.Declares("createdAt")) && old(attributes.Declares("updatedAt")) ==>
          attributes.keys == old(attributes.keys) + ["createdAt"]
      ensures timestamps && old(attributes.Declares("createdAt")) && !old(attributes.Declares("updatedAt")) ==>
          attributes.keys == old(attributes.keys) + ["updatedAt"]
      ensures !timestamps || (old(attributes.Declares("createdAt")) && old(attributes.Declares("updatedAt"))) ==>
          attributes.keys == old(attributes.keys)
      ensures lazy ==> schema == old(schema) && registry == old(registry) && pluginRegistries == old(pluginRegistries)
      ensures !lazy ==>
          schema.Some?
          && Compiles(hash, attributes.keys, attributes.plugins, explicitMap, old(registry), old(pluginRegistries),
          schema.value)
      ensures !lazy ==>
          registry == After(old(registry), schema.value.registry)
          && pluginRegistries == After(old(pluginRegistries), schema.value.pluginRegistries)
    {
      TimestampOrder(attributes.keys, attributes.PluginNames());
      if timestamps {
        attributes.AddTimestamps();
      }
      if !lazy {
        var c := NewSchema(hash, attributes.keys, attributes.plugins, explicitMap, registry, pluginRegistries);
        SetSchema(c);
      }
    }

    // `_ensureSchemaCompiled`: compiles what the pending configuration refers to. The explicit map
    // is not part of it.
    method EnsureSchemaCompiled()
      requires Valid()
      modifies this
      ensures Valid() && pending == null && attributes == old(attributes)
      ensures old(pending) == null ==>
          schema == old(schema) && registry == old(registry) && pluginRegistries == old(pluginRegistries)
      ensures old(pending) != null ==>
          && schema.Some?
              && Compiles(hash, old(pending.keys), old(pending.plugins), map[], old(registry), old(pluginRegistries),
              schema.value)
          && registry == After(old(registry), schema.value.registry)
              && pluginRegistries == After(old(pluginRegistries), schema.value.pluginRegistries)
    {
      if pending == null {
        return;
      }
      var c := NewSchema(hash, pending.keys, pending.plugins, map[], registry, pluginRegistries);
      SetSchema(c);
      pending := null;
    }

    // `updateAttributes` replaces the attributes object; a pending configuration keeps the old one.
    method UpdateAttributes(newAttributes: Attributes)
      requires Valid()
      modifies this, newAttributes
      ensures Valid() && attributes == newAttributes && pending == old(pending)
      ensures newAttributes.keys == WithTimestamps(old(newAttributes.keys), newAttributes.PluginNames(), timestamps)
      ensures lazy ==> schema == old(schema) && registry == old(registry) && pluginRegistries == old(pluginRegistries)
      ensures !lazy ==>
          schema.Some?
          && Compiles(hash, newAttributes.keys, newAttributes.plugins, explicitMap, old(registry),
          old(pluginRegistries), schema.value)
      ensures !lazy ==>
          registry == After(old(registry), schema.value.registry)
          && pluginRegistries == After(old(pluginRegistries), schema.value.pluginRegistries)
    {
      attributes := newAttributes;
      ApplyConfiguration();
    }
  }

  // schema.get...() || this....
  function After<T>(own: Option<T>, left: Option<T>): Option<T> {
    if left.Some? then left else own
  }

  // The first build: nothing stored yet.

  lemma {:induction false} AllocateDistinct(a: Allocation, keys: seq<string>)
    requires Distinct(keys) && forall k | k in keys :: k !in a.mapping
    ensures Allocate(a, keys).next == a.next + |keys|
    ensures forall i | 0 <= i < |keys| ::
              keys[i] in Allocate(a, keys).mapping && Allocate(a, keys).mapping[keys[i]] == a.next + i
  {
    if keys != [] {
      var front := keys[..|keys| - 1];
      AllocateDistinct(a, front);
      AllocateKeeps(a, front);
      assert keys == front + [keys[|keys| - 1]];
    }
  }

  lemma EmptyStart()
    ensures Start(EMPTY) == Allocation(map[], 0)
  {
    NextFreeUnique(EMPTY, 0, NextFree(EMPTY));
  }

  lemma DistinctParts(keys: seq<string>, extra: seq<string>)
    requires Distinct(keys + extra)
    ensures forall t | t in extra :: t !in keys
  {
    forall i, j | 0 <= i < |keys| && 0 <= j < |extra|
      ensures keys[i] != extra[j]
    {
      assert (keys + extra)[i] == keys[i] && (keys + extra)[|keys| + j] == extra[j];
    }
  }

  // From the empty registry every attribute gets its position as index, in one step or in two.
  lemma FirstIndices(keys: seq<string>, extra: seq<string>, middle: SchemaRegistry, r': SchemaRegistry)
    requires Distinct(keys + extra)
    requires (middle == EMPTY && keys == []) || Step(EMPTY, keys, middle)
    requires Step(middle, keys + extra, r')
    ensures forall i | 0 <= i < |keys + extra| ::
              (keys + extra)[i] in r'.mapping && r'.mapping[(keys + extra)[i]] == i
  {
    var full := keys + extra;
    EmptyStart();
    AllocateDistinct(Start(EMPTY), full);
    if Step(EMPTY, keys, middle) {
      DistinctParts(keys, extra);
      SameAllocations(EMPTY, keys, extra, middle);
    }
  }

  // The i-th attribute is stored under the numeral of i.
  ghost predicate KeyedByPlace(full: map<string, string>, keys: seq<string>) {
    forall i | 0 <= i < |keys| :: keys[i] in full && full[keys[i]] == Print(i, 36)
  }

  lemma FirstBuildKeys(keys: seq<string>, r: Option<SchemaRegistry>, c: Compiled)
    requires Distinct(keys) && CompilesUser(keys, map[], r, c) && (r == None || r == Some(EMPTY))
    ensures KeyedByPlace(c.user.full, keys)
  {
    match r
    case None => PositionalFacts(keys);
    case Some(before) =>
      assert [] + keys == keys;
      FirstIndices([], keys, EMPTY, c.registry.value);
  }

  lemma FirstEagerKeys(hash: Hash, keys: seq<string>, extra: seq<string>, plugins: seq<PluginAttribute>,
                       r: Option<SchemaRegistry>, existing: Option<map<string, PluginRegistry>>, c: Compiled)
    requires Distinct(keys + extra) && (r == None || r == Some(EMPTY))
    requires CompilesTwice(hash, keys, keys + extra, plugins, map[], r, existing, c)
    ensures KeyedByPlace(c.user.full, keys + extra)
  {
    var first :| CompilesAfter(hash, keys, keys + extra, plugins, map[], r, existing, first, c);
    match r
    case None => PositionalFacts(keys + extra);
    case Some(before) => FirstIndices(keys, extra, first.registry.value, c.registry.value);
  }

  /** Built for the first time, eagerly or lazily, a schema stores the n declared attributes under
      the numerals of 0 to n - 1 and its timestamps createdAt and updatedAt under those of n and n + 1. */
  method FirstBuild(hash: Hash, declared: Attributes, registry: Option<SchemaRegistry>,
                    pluginRegistries: Option<map<string, PluginRegistry>>, lazy: bool) returns (resource: Resource)
    requires Shaped(hash) && Distinct(declared.keys) && (registry == None || registry == Some(EMPTY))
    requires !declared.Declares("createdAt") && !declared.Declares("updatedAt")
    modifies declared
    ensures declared.keys == old(declared.keys) + ["createdAt", "updatedAt"]
    ensures resource.schema.Some?
    ensures var full, n := resource.schema.value.user.full, |old(declared.keys)|;
      && (forall i | 0 <= i < n :: old(declared.keys)[i] in full && full[old(declared.keys)[i]] == Print(i, 36))
      && "createdAt" in full && full["createdAt"] == Print(n, 36)
      && "updatedAt" in full && full["updatedAt"] == Print(n + 1, 36)
  {
    ghost var keys := declared.keys;
    TimestampOrder(keys, declared.PluginNames());
    DistinctWithTwo(keys, "createdAt", "updatedAt");
    resource := new Resource(hash, declared, map[], registry, pluginRegistries, lazy, true);
    if lazy {
      resource.EnsureSchemaCompiled();
      FirstBuildKeys(declared.keys, registry, resource.schema.value);
    } else {
      FirstEagerKeys(hash, keys, ["createdAt", "updatedAt"], declared.plugins, registry, pluginRegistries,
                     resource.schema.value);
    }
    LastTwoPlaces(resource.schema.value.user.full, keys, "createdAt", "updatedAt");
  }

  lemma DistinctWithTwo(keys: seq<string>, x: string, y: string)
    requires Distinct(keys) && x !in keys && y !in keys && x != y
    ensures Distinct(keys + [x, y])
  {
  }

  lemma LastTwoPlaces(full: map<string, string>, keys: seq<string>, x: string, y: string)
    requires KeyedByPlace(full, keys + [x, y])
    ensures KeyedByPlace(full, keys)
    ensures x in full && full[x] == Print(|keys|, 36)
    ensures y in full && full[y] == Print(|keys| + 1, 36)
  {
    var all := keys + [x, y];
    forall i | 0 <= i < |keys|
      ensures keys[i] in full && full[keys[i]] == Print(i, 36)
    {
      assert all[i] == keys[i];
    }
    assert all[|keys|] == x && all[|keys| + 1] == y;
  }

  // What the user's two maps have to do with each other.

  ghost predicate SharesIndex(r: SchemaRegistry, keys: seq<string>) {
    exists a, b :: a in keys && b in keys && a != b && a in r.mapping && b in r.mapping && r.mapping[a] == r.mapping[b]
  }

  lemma StepInverse(r: SchemaRegistry, keys: seq<string>, r': SchemaRegistry)
    requires Step(r, keys, r') && Covers(r'.mapping, keys)
    ensures var texts := KeyTexts(r'.mapping, keys); Inverse(texts, Reverse(texts, keys)) <==> !SharesIndex(r, keys)
  {
    var texts := KeyTexts(r'.mapping, keys);
    var reversed := Reverse(texts, keys);
    StepFacts(r, keys, r');
    AllocateFacts(Start(r), keys);
    ReverseFacts(texts, keys);
    if SharesIndex(r, keys) {
      var a, b :| a in keys && b in keys && a != b && a in r.mapping && b in r.mapping && r.mapping[a] == r.mapping[b];
      assert texts[a] == texts[b];
    } else {
      forall a | a in keys
        ensures reversed[texts[a]] == a
      {
        var b := reversed[texts[a]];
        PrintInjective(r'.mapping[a], r'.mapping[b], 36);
        assert a in r.mapping ==> Used(r, r.mapping[a]);
        assert b in r.mapping ==> Used(r, r.mapping[b]);
      }
    }
  }

  lemma PositionalInverse(keys: seq<string>)
    ensures Inverse(PositionalMap(keys), PositionalReverse(keys)) <==> Distinct(keys)
  {
    PositionalFacts(keys);
    var m, reversed := PositionalMap(keys), PositionalReverse(keys);
    if Distinct(keys) {
      PositionalTexts(keys);
      forall a | a in m
        ensures m[a] in reversed && reversed[m[a]] == a
      {
        var i :| 0 <= i < |keys| && keys[i] == a;
        assert m[keys[i]] == Print(i, 36);
      }
      forall t | t in reversed
        ensures reversed[t] in m && m[reversed[t]] == t
      {
        assert IsPlace(t, |keys|);
        var i: nat :| i < |keys| && t == Print(i, 36);
        assert m[keys[i]] == Print(i, 36);
      }
    } else {
      var i, j :| 0 <= i < j < |keys| && keys[i] == keys[j];
      assert Print(i, 36) in reversed && Print(j, 36) in reversed;
      if Print(i, 36) == Print(j, 36) {
        PrintInjective(i, j, 36);
      }
    }
  }

  ghost predicate IsPlace(t: string, n: nat) {
    exists i: nat :: i < n && t == Print(i, 36)
  }

  lemma {:induction false} PositionalTexts(keys: seq<string>)
    ensures forall t | t in PositionalReverse(keys) :: IsPlace(t, |keys|)
  {
    if keys != [] {
      var front := keys[..|keys| - 1];
      PositionalTexts(front);
      forall t | t in PositionalReverse(keys)
        ensures IsPlace(t, |keys|)
      {
        assert t in PositionalReverse(front) ==> IsPlace(t, |front|);
      }
    }
  }

  /** The two user maps a schema is left with are inverse exactly when: by position, no name is
      listed twice; from a registry, no two listed attributes share an index in it; from a valid
      map alone, always; from both, when the registry agrees with the map. */
  lemma CompiledInverse(keys: seq<string>, m: map<string, string>, r: Option<SchemaRegistry>, c: Compiled)
    requires CompilesUser(keys, m, r, c) && (m == map[] || ValidMap(m))
    ensures Inverse(c.user.full, c.user.reversed) <==>
        if m != map[] then r == None || Agrees(m, r.value, keys)
        else if r == None then Distinct(keys)
        else !SharesIndex(r.value, keys)
  {
    if m != map[] {
      if r.Some? {
        MergeInverse(m, r.value, keys, c.user, c.registry.value);
      }
    } else if r.Some? {
      StepInverse(r.value, keys, c.registry.value);
    } else {
      PositionalInverse(keys);
    }
  }

  // The same attributes, indices, counter and burned indices; the order of burned records aside.
  ghost predicate SameRegistry(r: SchemaRegistry, s: SchemaRegistry) {
    && r.mapping == s.mapping
    && r.nextIndex == s.nextIndex
    && (forall i: nat :: IsBurned(r.burned, i) <==> IsBurned(s.burned, i))
  }

  lemma {:induction false} AllocateSameFresh(a: Allocation, b: Allocation, keys: seq<string>)
    requires a.next == b.next && forall k | k in keys :: k !in a.mapping && k !in b.mapping
    ensures Allocate(a, keys).next == Allocate(b, keys).next
    ensures forall k | k in keys :: k in Allocate(a, keys).mapping && k in Allocate(b, keys).mapping
    ensures forall k | k in keys :: Allocate(a, keys).mapping[k] == Allocate(b, keys).mapping[k]
  {
    AllocateKeeps(a, keys);
    AllocateKeeps(b, keys);
    if keys != [] {
      var front := keys[..|keys| - 1];
      AllocateSameFresh(a, b, front);
      AllocateKeeps(a, front);
      AllocateKeeps(b, front);
    }
  }

  /** Two steps with attributes added between give the same registry as one step with all of
      them, exactly when none of the added attributes was registered before. */
  lemma TwoStepsOrOne(r: SchemaRegistry, keys: seq<string>, extra: seq<string>,
                      middle: SchemaRegistry, eager: SchemaRegistry, lazy: SchemaRegistry)
    requires Step(r, keys, middle) && Step(middle, keys + extra, eager) && Step(r, keys + extra, lazy)
    requires forall t | t in extra :: t !in keys
    ensures SameRegistry(eager, lazy) <==> forall t | t in extra :: t !in r.mapping
  {
    StepFacts(r, keys, middle);
    StepFacts(middle, keys + extra, eager);
    StepFacts(r, keys + extra, lazy);
    if t :| t in extra && t in r.mapping {
      assert Used(r, r.mapping[t]);
      assert eager.mapping[t] != lazy.mapping[t];
    } else {
      SameMapping(r, keys, extra, middle, eager, lazy);
      SameBurned(r, keys, extra, middle, eager, lazy);
    }
  }

  // Both constructions end with the same fresh indices for the added attributes.
  lemma SameAllocations(r: SchemaRegistry, keys: seq<string>, extra: seq<string>, middle: SchemaRegistry)
    requires Step(r, keys, middle)
    requires forall t | t in extra :: t !in keys && t !in r.mapping
    ensures var two, one := Allocate(Start(middle), keys + extra), Allocate(Start(r), keys + extra);
      && two.next == one.next
      && (forall k | k in keys || k in extra ::
          k in two.mapping && k in one.mapping && two.mapping[k] == one.mapping[k])
  {
    StepFacts(r, keys, middle);
    var first := Allocate(Start(r), keys);
    AllocateKeeps(Start(r), keys);
    AllocateConcat(Start(r), keys, extra);
    AllocateConcat(Start(middle), keys, extra);
    AllocateKnown(Start(middle), keys);
    AllocateSameFresh(Start(middle), first, extra);
    AllocateKeeps(Start(middle), extra);
    AllocateKeeps(first, extra);
  }

  lemma SameMapping(r: SchemaRegistry, keys: seq<string>, extra: seq<string>,
                    middle: SchemaRegistry, eager: SchemaRegistry, lazy: SchemaRegistry)
    requires Step(r, keys, middle) && Step(middle, keys + extra, eager) && Step(r, keys + extra, lazy)
    requires forall t | t in extra :: t !in keys && t !in r.mapping
    ensures eager.mapping == lazy.mapping && eager.nextIndex == lazy.nextIndex
  {
    SameAllocations(r, keys, extra, middle);
    assert forall k :: k in keys + extra <==> k in keys || k in extra;
  }

  lemma SameBurned(r: SchemaRegistry, keys: seq<string>, extra: seq<string>,
                   middle: SchemaRegistry, eager: SchemaRegistry, lazy: SchemaRegistry)
    requires Step(r, keys, middle) && Step(middle, keys + extra, eager) && Step(r, keys + extra, lazy)
    requires forall t | t in extra :: t !in keys && t !in r.mapping
    ensures forall i: nat :: IsBurned(eager.burned, i) <==> IsBurned(lazy.burned, i)
  {
    StepFacts(r, keys, middle);
    forall i: nat
      ensures IsBurned(eager.burned, i) <==> IsBurned(lazy.burned, i)
    {
      BurnedParts(r, keys, middle, i);
      BurnedParts(middle, keys + extra, eager, i);
      BurnedParts(r, keys + extra, lazy, i);
      assert forall a | a in r.mapping :: a in keys + extra <==> a in keys;
    }
  }

  /** Eager and lazy construction agree exactly when every timestamp the registry already
      knows is also declared; for any registry and any declared attributes. */
  lemma EagerEqualsLazy(r: SchemaRegistry, keys: seq<string>, others: set<string>, timestamps: bool,
                        middle: SchemaRegistry, eager: SchemaRegistry, lazy: SchemaRegistry)
    requires Step(r, keys, middle)
    requires Step(middle, WithTimestamps(keys, others, timestamps), eager)
    requires Step(r, WithTimestamps(keys, others, timestamps), lazy)
    ensures SameRegistry(eager, lazy)
        <==> (timestamps ==> forall t | t in TIMESTAMPS && t in r.mapping :: t in keys || t in others)
  {
    var full := WithTimestamps(keys, others, timestamps);
    var extra := full[|keys|..];
    assert full == keys + extra;
    TwoStepsOrOne(r, keys, extra, middle, eager, lazy);
    if timestamps {
      forall t | t in TIMESTAMPS
        ensures t in extra <==> t !in keys && t !in others
      {
        assert t in full || t in others;
      }
    } else {
      assert extra == [];
    }
  }

  /** When they disagree, the lazy schema still reads the timestamp under its old key while the
      eager one has burned that index and reads it under a key never used before. */
  lemma EagerMovesTimestamp(r: SchemaRegistry, keys: seq<string>, others: set<string>, timestamps: bool, t: string,
                            middle: SchemaRegistry, eager: SchemaRegistry, lazy: SchemaRegistry)
    requires timestamps && t in TIMESTAMPS && t in r.mapping && t !in keys && t !in others
    requires Step(r, keys, middle)
    requires Step(middle, WithTimestamps(keys, others, timestamps), eager)
    requires Step(r, WithTimestamps(keys, others, timestamps), lazy)
    ensures t in lazy.mapping && lazy.mapping[t] == r.mapping[t]
    ensures IsBurned(eager.burned, r.mapping[t])
    ensures t in eager.mapping && forall i: nat | Used(r, i) :: i < eager.mapping[t]
  {
    var full := WithTimestamps(keys, others, timestamps);
    StepFacts(r, keys, middle);
    StepFacts(middle, full, eager);
    StepFacts(r, full, lazy);
    BurnedParts(r, keys, middle, r.mapping[t]);
    BurnedParts(middle, full, eager, r.mapping[t]);
  }

  // The names a schema without an explicit map has keys for are those it was built from.
  lemma UserDomain(keys: seq<string>, r: Option<SchemaRegistry>, c: Compiled)
    requires CompilesUser(keys, map[], r, c)
    ensures forall k :: k in c.user.full <==> k in keys
  {
    PositionalFacts(keys);
  }

  /** A lazy resource whose attributes are replaced before its first use compiles the old ones: its
      schema covers the user attributes it has exactly when the replacement added none. */
  method UpdateThenUse(resource: Resource, newAttributes: Attributes)
    requires resource.Valid() && resource.lazy && resource.pending != null && newAttributes != resource.pending
    modifies resource, newAttributes
    ensures resource.attributes == newAttributes && resource.schema.Some?
    ensures forall k :: k in resource.schema.value.user.full <==> k in old(resource.pending.keys)
    ensures (forall k | k in newAttributes.keys :: k in resource.schema.value.user.full)
        <==> forall k | k in WithTimestamps(old(newAttributes.keys), newAttributes.PluginNames(),
            resource.timestamps) :: k in old(resource.pending.keys)
  {
    ghost var keys := resource.pending.keys;
    ghost var r := resource.registry;
    resource.UpdateAttributes(newAttributes);
    resource.EnsureSchemaCompiled();
    UserDomain(keys, r, resource.schema.value);
  }
}
