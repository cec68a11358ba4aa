/** A whole record written under one schema revision and read under a later one. */
module Revisions {
  import opened Options
  import opened Numerals
  import opened Texts
  import opened Fields
  import opened Registry
  import opened RegistryRuns
  import opened Document
  import PluginKeys
  import PluginSchema
  import RegistryMerge

  /** What reading needs to know of two schemas: the attributes in `same` have the key they were
      written under, and every key of another user attribute is free. */
  datatype Reading = Reading(earlier: Schema, later: Schema, limit: nat, same: set<string>)

  ghost predicate Linked(p: Reading) {
    && ValidSchema(p.earlier) && ValidSchema(p.later) && p.later.context == p.earlier.context
    && (forall a | a in p.earlier.keyMap ::
          && IsAttributeKey(p.earlier.keyMap[a], p.limit)
          && Resolve(p.later.reversed, p.earlier.keyMap[a]) == if a in p.same then a else p.earlier.keyMap[a])
    && (forall t | t in p.later.reversed :: IsAttributeKey(t, p.limit))
  }

  ghost predicate SamePlugins(earlier: Schema, later: Schema) {
    later.pluginMap == earlier.pluginMap && later.reversedPlugin == earlier.reversedPlugin
  }

  ghost predicate PluginShaped(sc: Schema) {
    forall t | t in sc.reversedPlugin :: PluginKeys.IsPluginKey(t)
  }

  // The plugin attributes are the same, or their keys keep clear of all attribute keys.
  ghost predicate PluginsFit(p: Reading) {
    || SamePlugins(p.earlier, p.later)
    || (p.limit <= PluginKeys.FIRST_SHARED && PluginShaped(p.earlier) && PluginShaped(p.later))
  }

  // And b is a plugin attribute in neither schema, nor named like a plugin key if they differ.
  ghost predicate PluginsApart(p: Reading, b: string) {
    && PluginsFit(p)
    && b !in p.earlier.pluginMap && b !in p.later.pluginMap
    && (SamePlugins(p.earlier, p.later) || !PluginKeys.IsPluginKey(b))
  }

  // Where the key of a user attribute of the earlier schema goes under the later one.
  lemma KeyAcross(p: Reading, a: string)
    requires Linked(p) && PluginsFit(p) && Declared(p.earlier, a) && a !in p.earlier.pluginMap
    ensures IsAttributeKey(MappedKey(p.earlier, a), p.limit)
    ensures OriginalKey(p.later, MappedKey(p.earlier, a)) == if a in p.same then a else MappedKey(p.earlier, a)
  {
    var t := p.earlier.keyMap[a];
    assert t in p.earlier.reversed && p.earlier.reversed[t] == a && IsStoredKey(p.earlier, t);
    NoPluginKey(p, t);
  }

  lemma NoPluginKey(p: Reading, t: string)
    requires ValidSchema(p.earlier) && PluginsFit(p) && t in p.earlier.reversed && IsAttributeKey(t, p.limit)
    ensures t !in p.later.reversedPlugin
  {
    if !SamePlugins(p.earlier, p.later) {
      AttributeKeyIsSmall(t, p.limit);
      SmallKeyText(t);
    }
  }

  // The key of a plugin attribute is never read as b.
  lemma PluginKeyAcross(p: Reading, a: string, b: string)
    requires Linked(p) && PluginsApart(p, b) && a in p.earlier.pluginMap
    ensures OriginalKey(p.later, MappedKey(p.earlier, a)) != b
  {
    var t := p.earlier.pluginMap[a];
    assert t in p.earlier.reversedPlugin && p.earlier.reversedPlugin[t] == a && IsStoredKey(p.earlier, t)
        && a in p.earlier.kinds;
    if t in p.later.reversedPlugin {
      assert p.later.reversedPlugin[t] in p.later.pluginMap && p.later.reversedPlugin[t] in p.later.kinds;
    } else {
      LaterUserKeySmall(p, t);
    }
  }

  lemma LaterUserKeySmall(p: Reading, t: string)
    requires Linked(p) && p.limit <= PluginKeys.FIRST_SHARED && PluginKeys.IsPluginKey(t)
    ensures t !in p.later.reversed
  {
    if t in p.later.reversed {
      AttributeKeyIsSmall(t, p.limit);
      SmallKeyText(t);
    }
  }

  // A stored record of declared attributes.
  ghost predicate Written(sc: Schema, d: seq<Entry>, es: seq<Entry>) {
    && ValidDocument(sc, d) && d != [] && Lists(es, Stored(sc, d))
    && forall x | x in d :: Declared(sc, x.key)
  }

  // The entry of the stored record that is read as attribute b was written for b.
  lemma ReadAs(p: Reading, d: seq<Entry>, es: seq<Entry>, b: string, z: Entry) returns (y: Entry)
    requires Linked(p) && Written(p.earlier, d, es) && PluginsApart(p, b) && !IsAttributeKey(b, p.limit)
    requires z in es && z.key != "_v" && OriginalKey(p.later, z.key) == b
    ensures y in d && y.key == b && z == StoredEntry(p.earlier, y) && b in p.same
  {
    assert z == Entry(z.key, z.value);
    StoredSource(p.earlier, d, z.key);
    y :| y in d && StoredEntry(p.earlier, y) == Entry(z.key, Stored(p.earlier, d)[z.key]);
    if y.key in p.earlier.pluginMap {
      PluginKeyAcross(p, y.key, b);
    } else {
      KeyAcross(p, y.key);
    }
  }

  lemma StoredNotDollar(earlier: Schema, d: seq<Entry>, es: seq<Entry>, e: Entry)
    requires ValidSchema(earlier) && AllValidated(earlier, d) && d != [] && Lists(es, Stored(earlier, d))
    requires e in es && forall x | x in d :: Declared(earlier, x.key)
    ensures !IsDollar(e.key)
  {
    assert e == Entry(e.key, e.value);
    if e.key != "_v" {
      StoredSource(earlier, d, e.key);
      var y :| y in d && StoredEntry(earlier, y) == Entry(e.key, Stored(earlier, d)[e.key]);
      DeclaredKeys(earlier, y.key);
    }
  }

  lemma NoDollars(earlier: Schema, d: seq<Entry>, es: seq<Entry>, b: string)
    requires ValidSchema(earlier) && AllValidated(earlier, d) && d != [] && Lists(es, Stored(earlier, d))
    requires forall x | x in d :: Declared(earlier, x.key)
    ensures !HasKey(DollarEntries(es), b)
  {
    if HasKey(DollarEntries(es), b) {
      var e :| e in DollarEntries(es) && e.key == b;
      DollarFacts(es, e);
      StoredNotDollar(earlier, d, es, e);
    }
  }

  lemma AllKeysOk(sc: Schema, d: seq<Entry>)
    requires forall x | x in d :: Declared(sc, x.key)
    ensures forall x | x in d :: KeyOk(sc, x.key)
  {
  }

  // Every entry read as b, and so the value left there, is the one stored for b.
  lemma LoadedForB(p: Reading, d: seq<Entry>, es: seq<Entry>, b: string, v: FieldValue) returns (y: Entry)
    requires Linked(p) && Written(p.earlier, d, es) && PluginsApart(p, b) && !IsAttributeKey(b, p.limit)
    requires Entry(b, v) in LoadedEntries(p.later, es)
    ensures y in d && y.key == b && b in p.same
    ensures v == Load(p.later.context, KindOf(p.later, b), Store(p.earlier.context, KindOf(p.earlier, b), y.value))
  {
    LoadedFacts(p.later, es, Entry(b, v));
    var z :| z in es && z.key != "_v" && Entry(b, v) == LoadedEntry(p.later, z);
    y := ReadAs(p, d, es, b, z);
  }

  // An attribute of the record that still has its key is read.
  lemma SurvivorLoaded(p: Reading, d: seq<Entry>, es: seq<Entry>, x: Entry)
    requires Linked(p) && Written(p.earlier, d, es) && x in d && PluginsApart(p, x.key) && x.key in p.same
    ensures HasKey(LoadedEntries(p.later, es), x.key)
  {
    AllKeysOk(p.earlier, d);
    StoredAt(p.earlier, d, x);
    KeyAcross(p, x.key);
    KeyComesBack(p.earlier, x.key);
    var z := StoredEntry(p.earlier, x);
    assert z == Entry(z.key, z.value) && z in es;
    LoadedFacts(p.later, es, LoadedEntry(p.later, z));
    assert LoadedEntry(p.later, z).key == x.key;
  }

  /** A record of declared attributes written under one schema and read under a linked one has
      attribute b if and only if the record had b and b still has its key; and then b holds what
      was stored for b. No value written for another attribute is ever read as b, as long as b is
      not itself named like an allocated key. `Unmapped` is the record before dotted keys are
      nested: see ResultAcross. */
  lemma RecordAcross(p: Reading, d: seq<Entry>, es: seq<Entry>, b: string)
    requires Linked(p) && Written(p.earlier, d, es) && PluginsApart(p, b) && !IsAttributeKey(b, p.limit)
    ensures b in Unmapped(p.later, es) <==> HasKey(d, b) && b in p.same
    ensures forall x | x in d && x.key == b && b in Unmapped(p.later, es) ::
              Unmapped(p.later, es)[b]
                  == Load(p.later.context, KindOf(p.later, b), Store(p.earlier.context, KindOf(p.earlier, b), x.value))
  {
    var rest := Write(map[], LoadedEntries(p.later, es));
    NoDollars(p.earlier, d, es, b);
    WriteAt(rest, DollarEntries(es), b);
    WriteAt(map[], LoadedEntries(p.later, es), b);
    if b in rest {
      var y := LoadedForB(p, d, es, b, rest[b]);
      forall x | x in d && x.key == b
        ensures x == y
      {
        SameEntry(d, x, y);
      }
    } else if HasKey(d, b) && b in p.same {
      var x :| x in d && x.key == b;
      SurvivorLoaded(p, d, es, x);
    }
  }

  /** So an attribute of unchanged kind that still has its key comes back in canonical form
      exactly when its value lies in the exact domain of the kind. */
  lemma ValueAcross(p: Reading, d: seq<Entry>, es: seq<Entry>, x: Entry)
    requires Linked(p) && Written(p.earlier, d, es) && x in d && PluginsApart(p, x.key)
        && !IsAttributeKey(x.key, p.limit)
    requires x.key in p.same && KindOf(p.later, x.key) == KindOf(p.earlier, x.key)
    ensures x.key in Unmapped(p.later, es)
    ensures Unmapped(p.later, es)[x.key] == Fields.Canonical(KindOf(p.earlier, x.key), x.value)
        <==> InDomain(p.earlier.context, KindOf(p.earlier, x.key), x.value)
  {
    RecordAcross(p, d, es, x.key);
    FieldRoundTrip(p.earlier.context, KindOf(p.earlier, x.key), x.value);
  }

  lemma KeyTextsHaveNoDot(t: string, limit: nat)
    requires IsAttributeKey(t, limit) || PluginKeys.IsPluginKey(t)
    ensures '.' !in t
  {
    if IsAttributeKey(t, limit) {
      var i: nat :| i < limit && t == Print(i, 36);
      PrintShape(i, 36);
      NumeralLacks(t, 36, '.');
    } else {
      var h, n: nat :| PluginKeys.IsHash(h) && t == PluginKeys.Candidate(h, n);
      PrintShape(n, 10);
      NumeralLacks(Print(n, 10), 10, '.');
      NumeralLacks(h[1..], 36, '.');
      assert h == ['p'] + h[1..];
    }
  }

  // No key read under the later schema has a dot, when no attribute name has one.
  lemma NoDotAcross(p: Reading, a: string)
    requires Linked(p) && PluginsFit(p) && Declared(p.earlier, a) && '.' !in a && forall q | q in p.later.pluginMap ::
        '.' !in q
    ensures '.' !in OriginalKey(p.later, MappedKey(p.earlier, a))
  {
    if a !in p.earlier.pluginMap {
      KeyAcross(p, a);
      KeyTextsHaveNoDot(MappedKey(p.earlier, a), p.limit);
    } else {
      var t := p.earlier.pluginMap[a];
      assert t in p.earlier.reversedPlugin && p.earlier.reversedPlugin[t] == a && IsStoredKey(p.earlier, t);
      if t in p.later.reversedPlugin {
        assert p.later.reversedPlugin[t] in p.later.pluginMap && p.later.reversedPlugin[t] in p.later.kinds;
      } else {
        LaterUserKeySmall(p, t);
        KeyTextsHaveNoDot(t, p.limit);
      }
    }
  }

  /** As long as no attribute name has a dot, the flat record of the two theorems above is the
      reader's result. */
  lemma ResultAcross(p: Reading, ext: Extend, d: seq<Entry>, es: seq<Entry>, ls: seq<Entry>)
    requires Linked(p) && PluginsFit(p) && Written(p.earlier, d, es) && Lists(ls, Loaded(p.later, es))
    requires (forall x | x in d :: '.' !in x.key) && forall q | q in p.later.pluginMap :: '.' !in q
    ensures Result(p.later, ext, es, ls) == Some(AsLeaves(Unmapped(p.later, es)))
  {
    forall t | t in Loaded(p.later, es)
      ensures '.' !in t
    {
      WriteAt(map[], LoadedEntries(p.later, es), t);
      LoadedFacts(p.later, es, Entry(t, Loaded(p.later, es)[t]));
      var z :| z in es && z.key != "_v" && Entry(t, Loaded(p.later, es)[t]) == LoadedEntry(p.later, z);
      assert z == Entry(z.key, z.value);
      StoredSource(p.earlier, d, z.key);
      var y :| y in d && StoredEntry(p.earlier, y) == Entry(z.key, Stored(p.earlier, d)[z.key]);
      NoDotAcross(p, y.key);
    }
    FlatResult(p.later, ext, es, ls);
  }

  // Two revisions of one run.

  // sc is the schema that revision `keys`, ending in registry r', builds.
  ghost predicate BuiltFrom(sc: Schema, r': SchemaRegistry, keys: seq<string>) {
    ValidSchema(sc) && UserKeysBuilt(sc, r', keys)
  }

  // Revisions j and k of one run, with the context unchanged.
  ghost predicate TwoRevisions(rs: seq<SchemaRegistry>, ks: seq<seq<string>>, j: nat, k: nat, earlier: Schema,
                               later: Schema) {
    && Run(rs, ks) && Unambiguous(rs[0]) && j <= k < |ks|
    && BuiltFrom(earlier, rs[j + 1], ks[j]) && BuiltFrom(later, rs[k + 1], ks[k])
    && later.context == earlier.context
  }

  // What the later revision finds: the attributes no revision between left out.
  ghost function RunReading(rs: seq<SchemaRegistry>, ks: seq<seq<string>>, j: nat, k: nat, earlier: Schema,
                            later: Schema): (p: Reading)
    requires TwoRevisions(rs, ks, j, k, earlier, later)
    ensures p.earlier == earlier && p.later == later && p.limit == rs[k + 1].nextIndex
    ensures forall a :: a in p.same <==> a in earlier.keyMap && Survives(ks, a, j + 1, k + 1)
  {
    Reading(earlier, later, rs[k + 1].nextIndex, set a | a in earlier.keyMap && Survives(ks, a, j + 1, k + 1))
  }

  lemma RunLinked(rs: seq<SchemaRegistry>, ks: seq<seq<string>>, j: nat, k: nat, earlier: Schema, later: Schema)
    requires TwoRevisions(rs, ks, j, k, earlier, later)
    ensures Linked(RunReading(rs, ks, j, k, earlier, later))
  {
    var p := RunReading(rs, ks, j, k, earlier, later);
    forall a | a in earlier.keyMap
      ensures IsAttributeKey(earlier.keyMap[a], p.limit)
      ensures Resolve(later.reversed, earlier.keyMap[a]) == if a in p.same then a else earlier.keyMap[a]
    {
      assert a in earlier.kinds;
      WrittenBelow(rs, ks, j, k, a);
      RunKeyAcross(rs, ks, j, k, earlier, later, a);
    }
    UserKeysShape(rs[k], ks[k], rs[k + 1]);
  }

  lemma RunKeyAcross(rs: seq<SchemaRegistry>, ks: seq<seq<string>>, j: nat, k: nat, earlier: Schema, later: Schema,
                     a: string)
    requires TwoRevisions(rs, ks, j, k, earlier, later) && a in earlier.keyMap
    ensures Resolve(later.reversed, earlier.keyMap[a]) == if a != ""
        && Survives(ks, a, j + 1, k + 1) then a else earlier.keyMap[a]
  {
    assert later.reversed == ReversedMap(rs, ks, k);
    assert earlier.keyMap[a] == WrittenKey(rs[j + 1], a);
    ReadSafety(rs, ks, j, k, a);
  }

  lemma WrittenBelow(rs: seq<SchemaRegistry>, ks: seq<seq<string>>, j: nat, k: nat, a: string)
    requires Run(rs, ks) && j <= k < |ks| && a in rs[j + 1].mapping
    ensures rs[j + 1].mapping[a] < rs[k + 1].nextIndex
  {
    assert Used(rs[j + 1], rs[j + 1].mapping[a]);
    CounterGrows(rs, ks, j + 1, k + 1);
    StepFacts(rs[k], ks[k], rs[k + 1]);
  }

  /** RecordAcross over a run: the attributes read back are those no revision between left out. */
  lemma RecordAcrossRevisions(rs: seq<SchemaRegistry>, ks: seq<seq<string>>, j: nat, k: nat, earlier: Schema,
                              later: Schema,
                              d: seq<Entry>, es: seq<Entry>, b: string)
    requires TwoRevisions(rs, ks, j, k, earlier, later) && Written(earlier, d, es)
    requires PluginsApart(RunReading(rs, ks, j, k, earlier, later), b) && !IsAttributeKey(b, rs[k + 1].nextIndex)
    ensures b in Unmapped(later, es) <==> HasKey(d, b) && Survives(ks, b, j + 1, k + 1)
    ensures forall x | x in d && x.key == b && b in Unmapped(later, es) ::
              Unmapped(later, es)[b]
                  == Load(later.context, KindOf(later, b), Store(earlier.context, KindOf(earlier, b), x.value))
  {
    RunLinked(rs, ks, j, k, earlier, later);
    RecordAcross(RunReading(rs, ks, j, k, earlier, later), d, es, b);
  }

  // The plugin keys of a schema, with or without stored registries.
  ghost predicate PluginsBuilt(sc: Schema, hash: PluginKeys.Hash, attributes: seq<PluginKeys.PluginAttribute>,
                               existing: Option<map<string, PluginKeys.PluginRegistry>>) {
    && PluginKeys.DistinctKeys(attributes)
    && match existing
       case None => PluginKeysBuilt(sc, hash, attributes)
       case Some(stored) =>
         var groups := PluginSchema.Grouped(attributes);
         && StoredPluginKeysBuilt(sc, hash, attributes, stored)
         && (forall g | g in groups :: PluginKeys.WellKept(PluginSchema.StoredFor(stored, g)))
         && !PluginSchema.SomeLate(hash, groups, stored)
  }

  /** Any two revisions of a run from an unambiguous registry qualify as long as the run allocates
      at most 25 * 36^3 indices, whatever plugin attributes and registries each of them has, as
      long as no stored plugin key was taken by a plugin handled before it. */
  lemma AnyTwoRevisions(rs: seq<SchemaRegistry>, ks: seq<seq<string>>, j: nat, k: nat, earlier: Schema, later: Schema,
                        hash: PluginKeys.Hash, before: seq<PluginKeys.PluginAttribute>,
                            after: seq<PluginKeys.PluginAttribute>,
                        stored: Option<map<string, PluginKeys.PluginRegistry>>,
                            stored': Option<map<string, PluginKeys.PluginRegistry>>)
    requires Run(rs, ks) && Unambiguous(rs[0]) && j <= k < |ks| && rs[k + 1].nextIndex <= PluginKeys.FIRST_SHARED
    requires PluginKeys.Shaped(hash) && Fields.ValidContext(earlier.context) && later.context == earlier.context
    requires UserKeysBuilt(earlier, rs[j + 1], ks[j]) && PluginsBuilt(earlier, hash, before, stored)
        && KindsDeclared(earlier)
    requires UserKeysBuilt(later, rs[k + 1], ks[k]) && PluginsBuilt(later, hash, after, stored') && KindsDeclared(later)
    ensures TwoRevisions(rs, ks, j, k, earlier, later) && PluginsFit(RunReading(rs, ks, j, k, earlier, later))
  {
    CounterGrows(rs, ks, j + 1, k + 1);
    StepFacts(rs[j], ks[j], rs[j + 1]);
    StepFacts(rs[k], ks[k], rs[k + 1]);
    RunUnambiguous(rs, ks, j);
    RunUnambiguous(rs, ks, k);
    RevisionBuilds(rs[j], ks[j], rs[j + 1], earlier, hash, before, stored);
    RevisionBuilds(rs[k], ks[k], rs[k + 1], later, hash, after, stored');
  }

  lemma RevisionBuilds(r: SchemaRegistry, keys: seq<string>, r': SchemaRegistry, sc: Schema, hash: PluginKeys.Hash,
                       attributes: seq<PluginKeys.PluginAttribute>,
                           existing: Option<map<string, PluginKeys.PluginRegistry>>)
    requires Step(r, keys, r') && Unambiguous(r) && r'.nextIndex <= PluginKeys.FIRST_SHARED
    requires PluginKeys.Shaped(hash) && Fields.ValidContext(sc.context)
    requires UserKeysBuilt(sc, r', keys) && PluginsBuilt(sc, hash, attributes, existing) && KindsDeclared(sc)
    ensures BuiltFrom(sc, r', keys) && PluginShaped(sc)
  {
    match existing
    case None =>
      PluginKeys.PluginMapShape(hash, attributes);
      BuiltSchema(r, keys, r', hash, attributes, sc);
    case Some(stored) =>
      PluginSchema.GroupedNames(attributes);
      PluginSchema.FlatShape(hash, PluginSchema.Grouped(attributes), stored);
      BuiltSchemaStored(r, keys, r', hash, attributes, stored, sc);
  }

  // Two revisions of a history with merges.

  ghost predicate TwoEvents(s: seq<SchemaRegistry>, es: seq<RegistryMerge.Event>, j: nat, k: nat, earlier: Schema,
                            later: Schema) {
    && RegistryMerge.History(s, es) && NeverReused(s)
    && j < |es| && k < |es| && es[j].Revise? && es[k].Revise?
    && BuiltFrom(earlier, s[j + 1], es[j].keys) && BuiltFrom(later, s[k + 1], es[k].keys)
    && later.context == earlier.context
  }

  // What the schema of event k finds of a record of event j: the attributes with the same index.
  ghost function HistoryReading(s: seq<SchemaRegistry>, es: seq<RegistryMerge.Event>, j: nat, k: nat, earlier: Schema,
                                later: Schema): (p: Reading)
    requires TwoEvents(s, es, j, k, earlier, later)
    ensures p.earlier == earlier && p.later == later
    ensures forall a :: a in p.same <==>
              a in earlier.keyMap && a in later.keyMap && a in s[j + 1].mapping && a in s[k + 1].mapping
                  && s[k + 1].mapping[a] == s[j + 1].mapping[a]
  {
    var limit := if s[j + 1].nextIndex >= s[k + 1].nextIndex then s[j + 1].nextIndex else s[k + 1].nextIndex;
    Reading(earlier, later, limit, set a | a in earlier.keyMap && a in later.keyMap && a in s[j + 1].mapping
        && a in s[k + 1].mapping
                                           && s[k + 1].mapping[a] == s[j + 1].mapping[a])
  }

  /** The record theorems hold over histories in which concurrent writers are merged, as long as
      no index was reused: what is read back are the attributes that still have their index. */
  lemma HistoryLinked(s: seq<SchemaRegistry>, es: seq<RegistryMerge.Event>, j: nat, k: nat, earlier: Schema,
                      later: Schema)
    requires TwoEvents(s, es, j, k, earlier, later)
    ensures Linked(HistoryReading(s, es, j, k, earlier, later))
  {
    var p := HistoryReading(s, es, j, k, earlier, later);
    assert RegistryMerge.Happens(s, es[j], j) && RegistryMerge.Happens(s, es[k], k);
    forall a | a in earlier.keyMap
      ensures IsAttributeKey(earlier.keyMap[a], p.limit)
      ensures Resolve(later.reversed, earlier.keyMap[a]) == if a in p.same then a else earlier.keyMap[a]
    {
      HistoryKey(s, es, j, k, earlier, later, a);
    }
    UserKeysShape(s[es[k].parent], es[k].keys, s[k + 1]);
    forall t | t in later.reversed
      ensures IsAttributeKey(t, p.limit)
    {
      KeyBelow(t, s[k + 1].nextIndex, p.limit);
    }
  }

  lemma HistoryKey(s: seq<SchemaRegistry>, es: seq<RegistryMerge.Event>, j: nat, k: nat, earlier: Schema,
                   later: Schema, a: string)
    requires TwoEvents(s, es, j, k, earlier, later) && a in earlier.keyMap
    ensures var p := HistoryReading(s, es, j, k, earlier, later);
      && IsAttributeKey(earlier.keyMap[a], p.limit)
      && Resolve(later.reversed, earlier.keyMap[a]) == if a in p.same then a else earlier.keyMap[a]
  {
    assert RegistryMerge.Happens(s, es[j], j) && RegistryMerge.Happens(s, es[k], k);
    assert a in earlier.kinds;
    WrittenInHistory(s, es, j, a);
    KeyBelow(earlier.keyMap[a], s[j + 1].nextIndex, HistoryReading(s, es, j, k, earlier, later).limit);
    RegistryMerge.HistoryReadSafety(s, es, j + 1, k, a);
  }

  lemma WrittenInHistory(s: seq<SchemaRegistry>, es: seq<RegistryMerge.Event>, j: nat, a: string)
    requires RegistryMerge.History(s, es) && j < |es| && es[j].Revise? && a in s[j + 1].mapping
    ensures IsAttributeKey(WrittenKey(s[j + 1], a), s[j + 1].nextIndex)
  {
    assert RegistryMerge.Happens(s, es[j], j);
    assert Used(s[j + 1], s[j + 1].mapping[a]);
    StepFacts(s[es[j].parent], es[j].keys, s[j + 1]);
  }

  lemma KeyBelow(t: string, n: nat, limit: nat)
    requires IsAttributeKey(t, n) && n <= limit
    ensures IsAttributeKey(t, limit)
  {
    var i: nat :| i < n && t == Print(i, 36);
  }
}
