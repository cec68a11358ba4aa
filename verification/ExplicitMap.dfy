/** A resource with an explicit attribute map (src/resource.class.ts): built eagerly, its schema is
    built from the map in the second of its two builds; built lazily, the map plays no part. */
module ExplicitMap {
  import opened Options
  import opened Numerals
  import opened PluginKeys
  import opened Registry
  import opened RegistryRuns
  import opened ResourceSchema
  import opened SchemaMap

  // How many of the keys are new.
  function Fresh<K>(m: map<string, K>, keys: seq<string>): nat {
    if keys == [] then 0 else Fresh(m, keys[..|keys| - 1]) + (if keys[|keys| - 1] in m then 0 else 1)
  }

  lemma {:induction false} FreshConcat<K>(m: map<string, K>, xs: seq<string>, ys: seq<string>)
    ensures Fresh(m, xs + ys) == Fresh(m, xs) + Fresh(m, ys)
  {
    if ys == [] {
      assert xs + ys == xs;
    } else {
      FreshConcat(m, xs, ys[..|ys| - 1]);
      assert (xs + ys)[..|xs + ys| - 1] == xs + ys[..|ys| - 1];
    }
  }

  lemma {:induction false} FreshAgrees<K, L>(m: map<string, K>, m': map<string, L>, keys: seq<string>)
    requires forall k | k in keys :: k in m <==> k in m'
    ensures Fresh(m, keys) == Fresh(m', keys)
  {
    if keys != [] {
      FreshAgrees(m, m', keys[..|keys| - 1]);
    }
  }

  lemma {:induction false} FreshNone<K>(m: map<string, K>, keys: seq<string>)
    requires forall k | k in keys :: k in m
    ensures Fresh(m, keys) == 0
  {
    if keys != [] {
      FreshNone(m, keys[..|keys| - 1]);
    }
  }

  // The counter after allocating distinct keys, and the index each new one gets.
  lemma {:induction false} AllocateCounts(a: Allocation, keys: seq<string>)
    requires Distinct(keys)
    ensures Allocate(a, keys).next == a.next + Fresh(a.mapping, keys)
  {
    if keys != [] {
      var front, last := keys[..|keys| - 1], keys[|keys| - 1];
      AllocateCounts(a, front);
      AllocateKeeps(a, front);
      assert last !in front;
    }
  }

  lemma {:induction false} AllocateIndexAt(a: Allocation, keys: seq<string>, i: nat)
    requires Distinct(keys) && i < |keys| && keys[i] !in a.mapping
    ensures keys[i] in Allocate(a, keys).mapping
    ensures Allocate(a, keys).mapping[keys[i]] == a.next + Fresh(a.mapping, keys[..i])
    decreases |keys|
  {
    var front, last := keys[..|keys| - 1], keys[|keys| - 1];
    AllocateKeeps(a, front);
    if i < |front| {
      AllocateIndexAt(a, front, i);
      assert front[..i] == keys[..i];
    } else {
      AllocateCounts(a, front);
      assert last !in front && keys[..i] == front;
    }
  }

  // The counter after one step, and the index of the i-th key.
  ghost function CounterAfter(r: SchemaRegistry, keys: seq<string>): nat {
    NextFree(r) + Fresh(r.mapping, keys)
  }

  ghost function IndexIn(r: SchemaRegistry, keys: seq<string>, i: nat): nat
    requires i < |keys|
  {
    if keys[i] in r.mapping then r.mapping[keys[i]] else NextFree(r) + Fresh(r.mapping, keys[..i])
  }

  lemma StepIndex(r: SchemaRegistry, keys: seq<string>, r': SchemaRegistry, i: nat)
    requires Step(r, keys, r') && Distinct(keys) && i < |keys|
    ensures keys[i] in r'.mapping && r'.mapping[keys[i]] == IndexIn(r, keys, i)
  {
    StepFacts(r, keys, r');
    if keys[i] !in r.mapping {
      AllocateIndexAt(Start(r), keys, i);
    }
  }

  lemma StepCounter(r: SchemaRegistry, keys: seq<string>, r': SchemaRegistry)
    requires Step(r, keys, r') && Distinct(keys)
    ensures r'.nextIndex == NextFree(r') == CounterAfter(r, keys)
  {
    StepFacts(r, keys, r');
    AllocateCounts(Start(r), keys);
  }

  // c is the least counter not below n and above every index the map denotes.
  ghost predicate Raised(m: map<string, string>, n: nat, c: nat) {
    && c >= n
    && (forall a | a in m :: Value(m[a], 36) < c)
    && (c > n ==> exists a :: a in m && Value(m[a], 36) == c - 1)
  }

  lemma BuiltCounter(m: map<string, string>, r: SchemaRegistry, built: SchemaRegistry)
    requires FromMap(m, r, built) && NextFree(r) == r.nextIndex
    ensures Raised(m, r.nextIndex, built.nextIndex) && NextFree(built) == built.nextIndex
  {
    forall k | 0 <= k < |r.burned|
      ensures r.burned[k].index < r.nextIndex
    {
      assert Used(r, r.burned[k].index);
    }
    if built.nextIndex > r.nextIndex && !exists a :: a in m && Value(m[a], 36) == built.nextIndex - 1 {
      assert Clears(m, r, built.nextIndex - 1);
    }
    forall i: nat | Used(built, i)
      ensures i < built.nextIndex
    {
      if a :| a in built.mapping && built.mapping[a] == i {
        assert a in r.mapping ==> Used(r, r.mapping[a]);
      }
    }
    NextFreeUnique(built, built.nextIndex, NextFree(built));
  }

  /** The i-th attribute gets one key eagerly and lazily: a key of the map that is its index in
      canonical form; for an attribute the map lacks nothing is asked if it was declared, and of an
      added timestamp that the counters agree, the map's having been raised above its indices. */
  ghost predicate SameKeyWith(m: map<string, string>, r: SchemaRegistry, keys: seq<string>, full: seq<string>, i: nat)
    requires keys <= full && i < |full|
  {
    if full[i] in m then m[full[i]] == Print(IndexIn(r, full, i), 36)
    else i < |keys| || exists c: nat ::
        Raised(m, CounterAfter(r, keys), c) && c + Fresh(m, full[|keys|..i]) == IndexIn(r, full, i)
  }

  lemma RaisedOnce(m: map<string, string>, n: nat, c: nat, c': nat)
    requires Raised(m, n, c) && Raised(m, n, c')
    ensures c == c'
  {
  }

  // The registry the eager resource ends with: the second step, from the map laid under the first.
  lemma SecondStep(m: map<string, string>, r: SchemaRegistry, keys: seq<string>, full: seq<string>,
                   middle: SchemaRegistry, built: SchemaRegistry, eager: SchemaRegistry, i: nat)
    requires Distinct(full) && keys <= full && |keys| <= i < |full| && full[i] !in m
    requires Step(r, keys, middle) && FromMap(m, middle, built) && Step(built, full, eager)
    ensures Raised(m, CounterAfter(r, keys), built.nextIndex)
    ensures full[i] in eager.mapping && eager.mapping[full[i]] == built.nextIndex + Fresh(m, full[|keys|..i])
  {
    assert Distinct(keys);
    StepFacts(r, keys, middle);
    StepCounter(r, keys, middle);
    BuiltCounter(m, middle, built);
    AddedApart(keys, full);
    StepIndex(built, full, eager, i);
    AddedFresh(m, keys, full, built.mapping, i);
  }

  lemma AddedApart(keys: seq<string>, full: seq<string>)
    requires Distinct(full) && keys <= full
    ensures forall t | t in full[|keys|..] :: t !in keys
  {
    forall t | t in full[|keys|..]
      ensures t !in keys
    {
      var n :| 0 <= n < |full| - |keys| && full[|keys|..][n] == t;
      assert full[|keys| + n] == t;
      assert forall j | 0 <= j < |keys| :: keys[j] == full[j];
    }
  }

  lemma AddedFresh(m: map<string, string>, keys: seq<string>, full: seq<string>, built: map<string, nat>, i: nat)
    requires keys <= full && |keys| <= i < |full| && forall t | t in full[|keys|..] :: t !in keys
    requires forall t :: t in built <==> t in keys || t in m
    ensures Fresh(built, full[..i]) == Fresh(m, full[|keys|..i])
  {
    var extra := full[|keys|..i];
    assert full[..i] == keys + extra;
    FreshConcat(built, keys, extra);
    FreshNone(built, keys);
    forall t | t in extra
      ensures t in built <==> t in m
    {
      assert t in full[|keys|..];
    }
    FreshAgrees(built, m, extra);
  }

  // A declared attribute keeps the index of the first step.
  lemma DeclaredIndex(m: map<string, string>, r: SchemaRegistry, keys: seq<string>, full: seq<string>,
                      middle: SchemaRegistry, built: SchemaRegistry, eager: SchemaRegistry, i: nat)
    requires Distinct(full) && keys <= full && i < |keys|
    requires Step(r, keys, middle) && FromMap(m, middle, built) && Step(built, full, eager)
    ensures full[i] in eager.mapping && eager.mapping[full[i]] == IndexIn(r, full, i)
  {
    assert Distinct(keys) && full[i] == keys[i] && full[..i] == keys[..i];
    StepIndex(r, keys, middle, i);
    StepFacts(built, full, eager);
  }

  /** With a registry, the eager and the lazy schema give the i-th attribute one key exactly when
      `SameKeyWith` says so: a test on the map, the registry and the declared attributes. */
  lemma ExplicitMapKeys(hash: Hash, keys: seq<string>, full: seq<string>, plugins: seq<PluginAttribute>,
                        m: map<string, string>,
                        r: SchemaRegistry, existing: Option<map<string, PluginRegistry>>,
                        first: Compiled, eager: Compiled, lazy: Compiled, i: nat)
    requires Distinct(full) && keys <= full && i < |full| && m != map[]
    requires CompilesAfter(hash, keys, full, plugins, m, Some(r), existing, first, eager)
    requires CompilesUser(full, map[], Some(r), lazy)
    ensures full[i] in eager.user.full && full[i] in lazy.user.full
    ensures eager.user.full[full[i]] == lazy.user.full[full[i]] <==> SameKeyWith(m, r, keys, full, i)
  {
    var k, middle, last := full[i], first.registry.value, eager.registry.value;
    var built :| FromMap(m, middle, built) && Step(built, full, last);
    MergedTied(m, middle, full, eager.user, last);
    StepIndex(r, full, lazy.registry.value, i);
    if k !in m {
      if i < |keys| {
        DeclaredIndex(m, r, keys, full, middle, built, last, i);
      } else {
        SecondStep(m, r, keys, full, middle, built, last, i);
        AddedKey(m, r, keys, full, i, built.nextIndex, last.mapping[k]);
      }
    }
  }

  lemma AddedKey(m: map<string, string>, r: SchemaRegistry, keys: seq<string>, full: seq<string>, i: nat, c: nat,
                 index: nat)
    requires keys <= full && |keys| <= i < |full| && full[i] !in m
    requires Raised(m, CounterAfter(r, keys), c) && index == c + Fresh(m, full[|keys|..i])
    ensures Print(index, 36) == Print(IndexIn(r, full, i), 36) <==> SameKeyWith(m, r, keys, full, i)
  {
    if Print(index, 36) == Print(IndexIn(r, full, i), 36) {
      PrintInjective(index, IndexIn(r, full, i), 36);
    }
    if c': nat :| Raised(m, CounterAfter(r, keys), c') && c' + Fresh(m, full[|keys|..i]) == IndexIn(r, full, i) {
      RaisedOnce(m, CounterAfter(r, keys), c, c');
    }
  }

  /** Without a registry they agree altogether exactly when the map is the positional one. */
  lemma ExplicitMapAlone(hash: Hash, keys: seq<string>, full: seq<string>, plugins: seq<PluginAttribute>,
                         m: map<string, string>,
                         existing: Option<map<string, PluginRegistry>>, first: Compiled, eager: Compiled,
                             lazy: Compiled)
    requires m != map[] && CompilesAfter(hash, keys, full, plugins, m, None, existing, first, eager)
    requires CompilesUser(full, map[], None, lazy)
    ensures eager.user.full == lazy.user.full <==> m == PositionalMap(full)
  {
  }

  /** An input on which they differ: for one new attribute a the map says "z", and the lazy schema
      writes it under "0". */
  lemma MapIgnored(a: string)
    ensures var m := map[a := "z"];
      ValidMap(m) && IndexIn(EMPTY, [a], 0) == 0 && !SameKeyWith(m, EMPTY, [a], [a], 0)
  {
    assert forall i: nat :: !Used(EMPTY, i);
    NextFreeUnique(EMPTY, 0, NextFree(EMPTY));
    assert [a][..0] == [];
    assert ValueOf('z') == 35 && Print(0, 36) == "0";
  }

  lemma DistinctFull(keys: seq<string>, others: set<string>, timestamps: bool)
    requires Distinct(keys)
    ensures Distinct(WithTimestamps(keys, others, timestamps))
  {
  }

  /** Both constructions on the objects: two resources with the same attributes, explicit map and
      stored registries, one eager and one lazy and then compiled. */
  method BuildBoth(hash: Hash, keys: seq<string>, plugins: seq<PluginAttribute>, m: map<string, string>,
                   r: Option<SchemaRegistry>,
                   existing: Option<map<string, PluginRegistry>>, timestamps: bool)
                       returns (eager: Resource, lazy: Resource)
    requires Shaped(hash) && Distinct(keys) && (m == map[] || ValidMap(m))
    ensures eager.schema.Some? && lazy.schema.Some? && eager.attributes.keys == lazy.attributes.keys
        && keys <= lazy.attributes.keys
    ensures m == map[] && r.Some? ==>
        && eager.registry.Some? && lazy.registry.Some?
        && (SameRegistry(eager.registry.value, lazy.registry.value)
            <==> (timestamps ==>
                forall t | t in TIMESTAMPS && t in r.value.mapping :: t in keys || exists x ::
                x in plugins && x.key == t))
        && (SameRegistry(eager.registry.value, lazy.registry.value) ==>
            eager.schema.value.user == lazy.schema.value.user)
    ensures m == map[] && r.None?
        ==> eager.registry == lazy.registry == None && eager.schema.value.user == lazy.schema.value.user
    ensures m != map[] && r.Some?
        ==> forall i: nat | i < |lazy.attributes.keys| :: SameKeyAt(m, r.value, keys, eager, lazy, i)
    ensures m != map[] && r.None? ==>
        (eager.schema.value.user.full == lazy.schema.value.user.full <==> m == PositionalMap(lazy.attributes.keys))
  {
    var forEager := new Attributes(keys, plugins);
    var forLazy := new Attributes(keys, plugins);
    eager := new Resource(hash, forEager, m, r, existing, false, timestamps);
    lazy := new Resource(hash, forLazy, m, r, existing, true, timestamps);
    lazy.EnsureSchemaCompiled();
    ghost var others, full := forEager.PluginNames(), forEager.keys;
    ghost var first :| CompilesAfter(hash, keys, full, plugins, m, r, existing, first, eager.schema.value);
    if m == map[] && r.Some? {
      EagerEqualsLazy(r.value, keys, others, timestamps, first.registry.value, eager.registry.value,
          lazy.registry.value);
    } else if m != map[] && r.Some? {
      DistinctFull(keys, others, timestamps);
      forall i: nat | i < |full|
        ensures SameKeyAt(m, r.value, keys, eager, lazy, i)
      {
        ExplicitMapKeys(hash, keys, full, plugins, m, r.value, existing, first, eager.schema.value, lazy.schema.value,
            i);
      }
    } else if m != map[] {
      ExplicitMapAlone(hash, keys, full, plugins, m, existing, first, eager.schema.value, lazy.schema.value);
    }
  }

  // The i-th attribute has a key in both schemas, the same one exactly when SameKeyWith says so.
  ghost predicate SameKeyAt(m: map<string, string>, r: SchemaRegistry, keys: seq<string>, eager: Resource,
                            lazy: Resource, i: nat)
    reads eager, lazy, lazy.attributes
    requires keys <= lazy.attributes.keys && i < |lazy.attributes.keys| && eager.schema.Some? && lazy.schema.Some?
  {
    var k := lazy.attributes.keys[i];
    && k in eager.schema.value.user.full && k in lazy.schema.value.user.full
    && (eager.schema.value.user.full[k] == lazy.schema.value.user.full[k]
        <==> SameKeyWith(m, r, keys, lazy.attributes.keys, i))
  }
}
