/** The schema constructor's choice of attribute map (src/schema.class.ts): a persisted map is
    validated, merged with a registry, and can be frozen into a first registry. */
module SchemaMap {
  import opened Options
  import opened Numerals
  import opened Registry
  import opened RegistryRuns

  datatype MapCheck = Valid | DuplicateKey | NonBase36

  // The text /^[0-9a-z]+$/ accepts.
  predicate IsKeyText(t: string) {
    t != "" && IsNumeral(t, 36)
  }

  ghost predicate Injective(m: map<string, string>) {
    forall a, b | a in m && b in m && m[a] == m[b] :: a == b
  }

  ghost predicate AllKeyTexts(m: map<string, string>) {
    forall a | a in m :: IsKeyText(m[a])
  }

  ghost predicate ValidMap(m: map<string, string>) {
    Injective(m) && AllKeyTexts(m)
  }

  ghost predicate HasDuplicate(m: map<string, string>) {
    exists a, b :: a in m && b in m && a != b && m[a] == m[b] && IsKeyText(m[a])
  }

  method ValidateMapEncoding(m: map<string, string>) returns (check: MapCheck)
    ensures check == Valid <==> ValidMap(m)
    ensures check == DuplicateKey <==> HasDuplicate(m)
  {
    var pending := m.Keys;
    var seen: set<string> := {};
    var invalid := false;
    ghost var holder: map<string, string>, offender := map[], "";
    while pending != {}
      invariant pending <= m.Keys && seen == holder.Keys
      invariant forall t | t in holder :: holder[t] in m && holder[t] !in pending && m[holder[t]] == t && IsKeyText(t)
      invariant forall a | a in m && a !in pending && IsKeyText(m[a]) :: m[a] in holder && holder[m[a]] == a
      invariant if invalid then offender in m && !IsKeyText(m[offender]) else forall a | a in m && a !in pending ::
          IsKeyText(m[a])
    {
      var attr :| attr in pending;
      pending := pending - {attr};
      if !IsKeyText(m[attr]) {
        invalid, offender := true, attr;
      } else {
        if m[attr] in seen {
          assert m[holder[m[attr]]] == m[attr];
          return DuplicateKey;
        }
        seen, holder := seen + {m[attr]}, holder[m[attr] := attr];
      }
    }
    check := if invalid then NonBase36 else Valid;
  }

  // `_buildRegistryFromMap`: registry entries win, map entries fill in, the counter moves past both.

  // `mapping` holds the registry's entries, and for the attributes in `done` the decoded map entries.
  ghost predicate Filled(m: map<string, string>, r: SchemaRegistry, done: set<string>, mapping: map<string, nat>) {
    && (forall a :: a in mapping <==> a in r.mapping || (a in m && a in done))
    && (forall a | a in r.mapping :: mapping[a] == r.mapping[a])
    && (forall a | a in m && a in done && a !in r.mapping :: mapping[a] == Value(m[a], 36))
  }

  ghost predicate Clears(m: map<string, string>, r: SchemaRegistry, n: nat) {
    && n >= r.nextIndex
    && (forall a | a in m :: Value(m[a], 36) < n)
    && (forall k | 0 <= k < |r.burned| :: r.burned[k].index < n)
  }

  ghost predicate FromMap(m: map<string, string>, r: SchemaRegistry, built: SchemaRegistry) {
    && Filled(m, r, m.Keys, built.mapping)
    && built.burned == r.burned
    && Clears(m, r, built.nextIndex)
    && forall n: nat | Clears(m, r, n) :: built.nextIndex <= n
  }

  lemma KeyTextReads(t: string)
    requires IsKeyText(t)
    ensures Read(t, 36).Some? && Read(t, 36).value == Value(t, 36)
  {
    ReadNumeral(t, 36);
  }

  // The loop over the entries of the map.
  method FillFromMap(m: map<string, string>, existing: SchemaRegistry)
    returns (mapping: map<string, nat>, maxIndex: int)
    requires AllKeyTexts(m)
    ensures Filled(m, existing, m.Keys, mapping)
    ensures maxIndex >= existing.nextIndex - 1 && forall a | a in m :: Value(m[a], 36) <= maxIndex
    ensures forall n: nat | Clears(m, existing, n) :: maxIndex < n
  {
    mapping, maxIndex := existing.mapping, existing.nextIndex - 1;
    var pending := m.Keys;
    ghost var done := {};
    while pending != {}
      invariant pending == m.Keys - done && done <= m.Keys
      invariant Filled(m, existing, done, mapping)
      invariant maxIndex >= existing.nextIndex - 1 && forall a | a in done :: Value(m[a], 36) <= maxIndex
      invariant forall n: nat | Clears(m, existing, n) :: maxIndex < n
    {
      var attr :| attr in pending;
      pending, done := pending - {attr}, done + {attr};
      var index := Decode(m[attr], 36);
      KeyTextReads(m[attr]);
      if attr !in mapping {
        mapping := mapping[attr := index.value];
      }
      if maxIndex < index.value {
        maxIndex := index.value;
      }
    }
  }

  method BuildRegistryFromMap(m: map<string, string>, existing: SchemaRegistry) returns (registry: SchemaRegistry)
    requires AllKeyTexts(m)
    ensures FromMap(m, existing, registry)
  {
    var mapping, maxIndex := FillFromMap(m, existing);
    for k := 0 to |existing.burned|
      invariant maxIndex >= existing.nextIndex - 1
      invariant forall a | a in m :: Value(m[a], 36) <= maxIndex
      invariant forall j | 0 <= j < k :: existing.burned[j].index <= maxIndex
      invariant forall n: nat | Clears(m, existing, n) :: maxIndex < n
    {
      if maxIndex < existing.burned[k].index {
        maxIndex := existing.burned[k].index;
      }
    }
    registry := SchemaRegistry(if existing.nextIndex < maxIndex + 1 then maxIndex + 1
        else existing.nextIndex, mapping, existing.burned);
  }

  ghost predicate IsIndexIn(m: map<string, string>, r: SchemaRegistry, n: nat) {
    (exists a :: a in m && Value(m[a], 36) == n) || IsBurned(r.burned, n)
  }

  /** The counter is the registry's own or one more than an index of the map or a burned one,
      whichever is greatest: 0 for nothing at all. */
  lemma CounterExact(m: map<string, string>, r: SchemaRegistry, built: SchemaRegistry)
    requires FromMap(m, r, built)
    ensures built.nextIndex >= r.nextIndex && forall n: nat | IsIndexIn(m, r, n) :: n < built.nextIndex
    ensures built.nextIndex == r.nextIndex || IsIndexIn(m, r, built.nextIndex - 1)
  {
    if built.nextIndex > r.nextIndex && !IsIndexIn(m, r, built.nextIndex - 1) {
      forall a | a in m
        ensures Value(m[a], 36) < built.nextIndex - 1
      {
        assert Value(m[a], 36) != built.nextIndex - 1;
      }
      assert Clears(m, r, built.nextIndex - 1);
    }
  }

  // The merged maps.

  function Invert(m: map<string, string>): map<string, string>
    requires Injective(m)
  {
    map a | a in m :: m[a] := a
  }

  datatype Maps = Maps(full: map<string, string>, reversed: map<string, string>)

  // The constructor's loop: a user key the map lacks gets the registry's text in both maps.
  function AddKeys(maps: Maps, texts: map<string, string>, keys: seq<string>): Maps
    requires forall k | k in keys :: k in texts
  {
    if keys == [] then maps
    else
      var front, last := AddKeys(maps, texts, keys[..|keys| - 1]), keys[|keys| - 1];
      if last in front.full then front
      else Maps(front.full[last := texts[last]], front.reversed[texts[last] := last])
  }

  // Every reverse entry points at an attribute bearing that text, and no text is missing.
  ghost predicate Tied(maps: Maps) {
    && (forall t | t in maps.reversed :: maps.reversed[t] in maps.full && maps.full[maps.reversed[t]] == t)
    && (forall a | a in maps.full :: maps.full[a] in maps.reversed)
  }

  lemma {:induction false} AddKeysFacts(maps: Maps, texts: map<string, string>, keys: seq<string>)
    requires Tied(maps) && forall k | k in keys :: k in texts
    ensures Tied(AddKeys(maps, texts, keys))
    ensures forall k :: k in AddKeys(maps, texts, keys).full <==> k in maps.full || k in keys
    ensures forall k | k in maps.full :: AddKeys(maps, texts, keys).full[k] == maps.full[k]
    ensures forall k | k in keys && k !in maps.full :: AddKeys(maps, texts, keys).full[k] == texts[k]
  {
    if keys != [] {
      var last := keys[|keys| - 1];
      AddKeysFacts(maps, texts, keys[..|keys| - 1]);
      assert forall k :: k in keys <==> k in keys[..|keys| - 1] || k == last;
      if last !in AddKeys(maps, texts, keys[..|keys| - 1]).full {
        AddKeyTied(AddKeys(maps, texts, keys[..|keys| - 1]), texts[last], last);
      }
    }
  }

  lemma AddKeyTied(maps: Maps, text: string, key: string)
    requires Tied(maps) && key !in maps.full
    ensures Tied(Maps(maps.full[key := text], maps.reversed[text := key]))
  {
  }

  // One construction from a persisted map and a registry: what it leaves in the two maps and the registry.
  ghost predicate Merged(m: map<string, string>, r: SchemaRegistry, keys: seq<string>, maps: Maps, r': SchemaRegistry) {
    && Injective(m)
    && (exists built :: FromMap(m, r, built) && Step(built, keys, r'))
    && (forall k | k in keys :: k in r'.mapping)
    && maps == AddKeys(Maps(m, Invert(m)), KeyTexts(r'.mapping, keys), keys)
  }

  method MergeMap(m: map<string, string>, r: SchemaRegistry, keys: seq<string>)
    returns (maps: Maps, registry: SchemaRegistry, changed: bool)
    requires ValidMap(m)
    ensures Merged(m, r, keys, maps, registry)
    ensures exists built ::
        FromMap(m, r, built) && Step(built, keys, registry) && changed == ReportsChange(built, keys, registry)
  {
    var built := BuildRegistryFromMap(m, r);
    var mapping, unused;
    mapping, unused, registry, changed := GenerateMappingFromRegistry(keys, Some(built));
    maps := FillIn(Maps(m, Invert(m)), mapping, keys);
  }

  method FillIn(start: Maps, mapping: map<string, string>, keys: seq<string>) returns (maps: Maps)
    requires forall k | k in keys :: k in mapping
    ensures maps == AddKeys(start, mapping, keys)
  {
    maps := start;
    for n := 0 to |keys|
      invariant maps == AddKeys(start, mapping, keys[..n])
    {
      assert keys[..n + 1][..n] == keys[..n];
      var key := keys[n];
      if key !in maps.full {
        maps := Maps(maps.full[key := mapping[key]], maps.reversed[mapping[key] := key]);
      }
    }
    assert keys[..|keys|] == keys;
  }

  // The decoded indices and the counter of the registry built from a map.
  lemma BuiltFacts(m: map<string, string>, r: SchemaRegistry, built: SchemaRegistry)
    requires FromMap(m, r, built)
    ensures forall a | a in r.mapping :: a in built.mapping && built.mapping[a] == r.mapping[a]
    ensures forall a | a in m && a !in r.mapping :: a in built.mapping && built.mapping[a] == Value(m[a], 36)
    ensures forall a | a in m :: Value(m[a], 36) < NextFree(built)
    ensures forall i: nat | Used(r, i) :: i < NextFree(built)
  {
    forall i: nat | Used(r, i)
      ensures i < NextFree(built)
    {
      if a :| a in r.mapping && r.mapping[a] == i {
        assert built.mapping[a] == i;
        assert Used(built, i);
      } else {
        assert IsBurned(built.burned, i);
        assert Used(built, i);
      }
    }
  }

  /** Merging never moves an entry of the map, covers every user key, keeps what the registry
      knew, and gives keys neither side knew indices above every index mapped or burned. */
  lemma MergeExtends(m: map<string, string>, r: SchemaRegistry, keys: seq<string>,
                     maps: Maps, r': SchemaRegistry)
    requires Merged(m, r, keys, maps, r')
    ensures forall a | a in m :: a in maps.full && maps.full[a] == m[a]
    ensures forall k :: k in maps.full <==> k in m || k in keys
    ensures forall k | k in keys && k !in m && k in r.mapping :: maps.full[k] == Print(r.mapping[k], 36)
    ensures forall k | k in keys && k !in m && k !in r.mapping ::
              && maps.full[k] == Print(r'.mapping[k], 36)
              && (forall a | a in m :: Value(m[a], 36) < r'.mapping[k])
              && (forall i: nat | Used(r, i) :: i < r'.mapping[k])
  {
    var built :| FromMap(m, r, built) && Step(built, keys, r');
    StepFacts(built, keys, r');
    BuiltFacts(m, r, built);
    MergedTied(m, r, keys, maps, r');
  }

  lemma MergedTied(m: map<string, string>, r: SchemaRegistry, keys: seq<string>, maps: Maps, r': SchemaRegistry)
    requires Merged(m, r, keys, maps, r')
    ensures Tied(maps)
    ensures forall k :: k in maps.full <==> k in m || k in keys
    ensures forall a | a in m :: maps.full[a] == m[a]
    ensures forall k | k in keys && k !in m :: maps.full[k] == Print(r'.mapping[k], 36)
  {
    AddKeysFacts(Maps(m, Invert(m)), KeyTexts(r'.mapping, keys), keys);
  }

  // What the registry must not contradict: its keys for attributes the map lacks are free and distinct.
  ghost predicate Agrees(m: map<string, string>, r: SchemaRegistry, keys: seq<string>) {
    && (forall k, a | k in keys && k !in m && k in r.mapping && a in m :: m[a] != Print(r.mapping[k], 36))
    && (forall k, l | k in keys && l in keys && k !in m && l !in m && k in r.mapping && l in r.mapping
        && r.mapping[k] == r.mapping[l] :: k == l)
  }

  ghost predicate Inverse(m: map<string, string>, reversed: map<string, string>) {
    && (forall a | a in m :: m[a] in reversed && reversed[m[a]] == a)
    && (forall t | t in reversed :: reversed[t] in m && m[reversed[t]] == t)
  }

  /** The merged map is injective with reversedMap its exact inverse precisely when the
      registry agrees with the map. */
  lemma MergeInverse(m: map<string, string>, r: SchemaRegistry, keys: seq<string>,
                     maps: Maps, r': SchemaRegistry)
    requires ValidMap(m) && Merged(m, r, keys, maps, r')
    ensures Inverse(maps.full, maps.reversed) <==> Agrees(m, r, keys)
    ensures Injective(maps.full) <==> Agrees(m, r, keys)
  {
    MergedTied(m, r, keys, maps, r');
    InjectiveInverse(maps);
    if Agrees(m, r, keys) {
      MergeInjective(m, r, keys, maps, r');
    } else {
      var a, b := MergeClash(m, r, keys, maps, r');
    }
  }

  lemma InjectiveInverse(maps: Maps)
    requires Tied(maps)
    ensures Inverse(maps.full, maps.reversed) <==> Injective(maps.full)
  {
  }

  // A registry that contradicts the map makes two attributes share a key.
  lemma MergeClash(m: map<string, string>, r: SchemaRegistry, keys: seq<string>, maps: Maps, r': SchemaRegistry)
    returns (a: string, b: string)
    requires Merged(m, r, keys, maps, r') && !Agrees(m, r, keys)
    ensures a in maps.full && b in maps.full && a != b && maps.full[a] == maps.full[b]
  {
    MergeExtends(m, r, keys, maps, r');
    if k, l :| k in keys && k !in m && k in r.mapping && l in m && m[l] == Print(r.mapping[k], 36) {
      a, b := k, l;
    } else {
      a, b :| a in keys && b in keys && a !in m && b !in m && a in r.mapping && b in r.mapping
          && r.mapping[a] == r.mapping[b] && a != b;
    }
  }

  lemma MergeInjective(m: map<string, string>, r: SchemaRegistry, keys: seq<string>, maps: Maps, r': SchemaRegistry)
    requires ValidMap(m) && Merged(m, r, keys, maps, r') && Agrees(m, r, keys)
    ensures Injective(maps.full)
  {
    MergedTied(m, r, keys, maps, r');
    forall a, b | a in maps.full && b in maps.full && maps.full[a] == maps.full[b]
      ensures a == b
    {
      if a !in m && b !in m {
        BothAdded(m, r, keys, maps, r', a, b);
      } else if a !in m {
        AddedIsNew(m, r, keys, maps, r', a, b);
      } else if b !in m {
        AddedIsNew(m, r, keys, maps, r', b, a);
      }
    }
  }

  lemma AddedIsNew(m: map<string, string>, r: SchemaRegistry, keys: seq<string>, maps: Maps, r': SchemaRegistry,
                   k: string, a: string)
    requires ValidMap(m) && Merged(m, r, keys, maps, r') && Agrees(m, r, keys) && k in keys && k !in m && a in m
    ensures k in r'.mapping && m[a] != Print(r'.mapping[k], 36)
  {
    var built :| FromMap(m, r, built) && Step(built, keys, r');
    StepFacts(built, keys, r');
    BuiltFacts(m, r, built);
    if k in r.mapping {
      assert r'.mapping[k] == r.mapping[k];
    } else {
      ValuePrint(r'.mapping[k], 36);
      assert Value(m[a], 36) < r'.mapping[k];
    }
  }

  lemma BothAdded(m: map<string, string>, r: SchemaRegistry, keys: seq<string>, maps: Maps, r': SchemaRegistry,
                  a: string, b: string)
    requires Merged(m, r, keys, maps, r') && Agrees(m, r, keys)
    requires a in keys && b in keys && a !in m && b !in m && a in r'.mapping && b in r'.mapping
    requires Print(r'.mapping[a], 36) == Print(r'.mapping[b], 36)
    ensures a == b
  {
    var built :| FromMap(m, r, built) && Step(built, keys, r');
    StepFacts(built, keys, r');
    BuiltFacts(m, r, built);
    AllocateFacts(Start(built), keys);
    PrintInjective(r'.mapping[a], r'.mapping[b], 36);
    assert a in r.mapping ==> Used(r, r.mapping[a]);
    assert b in r.mapping ==> Used(r, r.mapping[b]);
  }

  /** The next construction, from the registry alone, gives a user key the same stored key as
      the merged map did exactly when the map entry, if any, is a canonical numeral the registry
      does not contradict. */
  lemma MergeThenRegistryAlone(m: map<string, string>, r: SchemaRegistry, keys: seq<string>,
                               maps: Maps, r': SchemaRegistry,
                               later: seq<string>, r'': SchemaRegistry, k: string)
    requires ValidMap(m) && Merged(m, r, keys, maps, r') && Step(r', later, r'')
    requires k in keys && k in later
    ensures k in r''.mapping && k in maps.full
    ensures Print(r''.mapping[k], 36) == maps.full[k]
        <==> (k in m ==> IsCanonical(m[k], 36) && (k in r.mapping ==> r.mapping[k] == Value(m[k], 36)))
  {
    MergeExtends(m, r, keys, maps, r');
    var built :| FromMap(m, r, built) && Step(built, keys, r');
    StepFacts(built, keys, r');
    StepFacts(r', later, r'');
    BuiltFacts(m, r, built);
    if k in m {
      PrintValue(m[k], 36);
      var i := r''.mapping[k];
      ValuePrint(i, 36);
    }
  }

  // `generateInitialRegistry`: freeze a map into a first registry.
  method GenerateInitialRegistry(m: map<string, string>) returns (registry: SchemaRegistry)
    requires AllKeyTexts(m)
    ensures FromMap(m, EMPTY, registry)
  {
    registry := BuildRegistryFromMap(m, EMPTY);
  }

  /** A frozen registry can start a run: it is unambiguous exactly when no two keys of the map
      denote the same number. */
  lemma FreezeUnambiguous(m: map<string, string>, frozen: SchemaRegistry)
    requires AllKeyTexts(m) && FromMap(m, EMPTY, frozen)
    ensures Unambiguous(frozen) <==> forall a, b | a in m && b in m && Value(m[a], 36) == Value(m[b], 36) :: a == b
  {
    forall a, i: nat
      ensures Owns(frozen, a, i) <==> a in m && Value(m[a], 36) == i
    {
    }
    if Unambiguous(frozen) {
      forall a, b | a in m && b in m && Value(m[a], 36) == Value(m[b], 36)
        ensures a == b
      {
        assert Owns(frozen, a, Value(m[a], 36)) && Owns(frozen, b, Value(m[a], 36));
      }
    }
  }

  /** The revision after the freeze writes the keys of the map exactly when they carry no
      leading zero, and has nothing to persist when the attributes stayed the same. */
  lemma FreezeKeepsKeys(m: map<string, string>, frozen: SchemaRegistry, keys: seq<string>, r': SchemaRegistry)
    requires AllKeyTexts(m) && FromMap(m, EMPTY, frozen) && Step(frozen, keys, r')
    ensures forall k | k in keys && k in m ::
        k in r'.mapping && (Print(r'.mapping[k], 36) == m[k] <==> IsCanonical(m[k], 36))
    ensures (forall k :: k in keys <==> k in m) ==> r' == frozen && !ReportsChange(frozen, keys, r')
  {
    StepFacts(frozen, keys, r');
    forall k | k in keys && k in m
      ensures Print(r'.mapping[k], 36) == m[k] <==> IsCanonical(m[k], 36)
    {
      PrintValue(m[k], 36);
    }
    if forall k :: k in keys <==> k in m {
      FrozenNextFree(m, frozen);
      StepIdle(frozen, keys, r');
    }
  }

  lemma FrozenNextFree(m: map<string, string>, frozen: SchemaRegistry)
    requires FromMap(m, EMPTY, frozen)
    ensures NextFree(frozen) == frozen.nextIndex
  {
    assert forall i: nat | Used(frozen, i) :: i < frozen.nextIndex;
    NextFreeUnique(frozen, frozen.nextIndex, NextFree(frozen));
  }
}
