/** The schema registry of src/schema.class.ts: permanent attribute indices.
    `Step` is one call of `generateMappingFromRegistry`. The order in which a JavaScript
    object lists its entries only decides the order of the newly burned records, so `Step`
    is a relation that leaves that order open and every theorem holds for all of them. */
module Registry {
  import opened Options
  import opened Numerals

  // A retired index: a number here, a whole key in a plugin's registry.
  datatype Burned<K> = Burned(index: K, attribute: string)
  datatype SchemaRegistry = SchemaRegistry(nextIndex: nat, mapping: map<string, nat>, burned: seq<Burned<nat>>)

  const EMPTY: SchemaRegistry := SchemaRegistry(0, map[], [])

  // Mapped or burned: the two ways an attribute owns an index.
  ghost predicate Owns(r: SchemaRegistry, a: string, i: nat) {
    (a in r.mapping && r.mapping[a] == i) || Burned(i, a) in r.burned
  }

  ghost predicate Used(r: SchemaRegistry, i: nat) {
    (exists a :: a in r.mapping && r.mapping[a] == i) || IsBurned(r.burned, i)
  }

  predicate IsBurned<K(==)>(bs: seq<Burned<K>>, i: K) {
    exists k | 0 <= k < |bs| :: bs[k].index == i
  }

  // No index has two owners: the one hypothesis the run theorems need.
  ghost predicate Unambiguous(r: SchemaRegistry) {
    forall a, b, i | Owns(r, a, i) && Owns(r, b, i) :: a == b
  }

  // The repaired counter: the least number not below nextIndex and above every used index.
  ghost predicate IsNextFree(r: SchemaRegistry, n: nat) {
    && n >= r.nextIndex
    && (forall i: nat | Used(r, i) :: i < n)
    && (n > r.nextIndex ==> Used(r, n - 1))
  }

  ghost function NextFree(r: SchemaRegistry): (n: nat)
    ensures IsNextFree(r, n)
  {
    NextFreeExists(r);
    var n: nat :| IsNextFree(r, n);
    n
  }

  lemma NextFreeUnique(r: SchemaRegistry, m: nat, n: nat)
    requires IsNextFree(r, m) && IsNextFree(r, n)
    ensures m == n
  {
  }

  lemma NextFreeExists(r: SchemaRegistry)
    ensures exists n: nat :: IsNextFree(r, n)
  {
    var n := Repaired(r.mapping.Keys, r);
    assert r.mapping.Keys == r.mapping.Keys;
    BurnedRepair(r, n, r.burned);
  }

  // The maximum over a set of mapped attributes, then over the burned records.
  lemma Repaired(attrs: set<string>, r: SchemaRegistry) returns (n: nat)
    requires attrs <= r.mapping.Keys
    ensures n >= r.nextIndex && (n > r.nextIndex ==> Used(r, n - 1))
    ensures forall a | a in attrs :: r.mapping[a] < n
  {
    if attrs == {} {
      n := r.nextIndex;
    } else {
      var a :| a in attrs;
      n := Repaired(attrs - {a}, r);
      if n <= r.mapping[a] {
        n := r.mapping[a] + 1;
      }
    }
  }

  lemma BurnedRepair(r: SchemaRegistry, n: nat, bs: seq<Burned<nat>>)
    requires bs <= r.burned
    requires n >= r.nextIndex && (n > r.nextIndex ==> Used(r, n - 1))
    requires forall a | a in r.mapping :: r.mapping[a] < n
    requires forall k | |bs| <= k < |r.burned| :: r.burned[k].index < n
    ensures exists n: nat :: IsNextFree(r, n)
    decreases |bs|
  {
    if bs == [] {
      assert IsNextFree(r, n);
    } else {
      var last := r.burned[|bs| - 1].index;
      BurnedRepair(r, if n <= last then last + 1 else n, bs[..|bs| - 1]);
    }
  }

  // The allocation loop: known keys keep their index, unknown ones take the next.

  datatype Allocation = Allocation(mapping: map<string, nat>, next: nat)

  function AllocateOne(a: Allocation, key: string): Allocation {
    if key in a.mapping then a else Allocation(a.mapping[key := a.next], a.next + 1)
  }

  function Allocate(a: Allocation, keys: seq<string>): Allocation {
    if keys == [] then a else AllocateOne(Allocate(a, keys[..|keys| - 1]), keys[|keys| - 1])
  }

  ghost predicate Hands(a: Allocation, b: Allocation, i: nat) {
    exists k :: k in b.mapping && k !in a.mapping && b.mapping[k] == i
  }

  ghost predicate Allocated(a: Allocation, keys: seq<string>, b: Allocation) {
    && b.mapping.Keys == a.mapping.Keys + (set k | k in keys)
    && (forall k | k in a.mapping :: b.mapping[k] == a.mapping[k])
    && (forall k | k in b.mapping && k !in a.mapping :: a.next <= b.mapping[k] < b.next)
    && (forall k, l | k in b.mapping && k !in a.mapping && l in b.mapping && l !in a.mapping
        && b.mapping[k] == b.mapping[l] :: k == l)
    && (forall i | a.next <= i < b.next :: Hands(a, b, i))
    && a.next <= b.next
  }

  lemma {:induction false} AllocateFacts(a: Allocation, keys: seq<string>)
    ensures Allocated(a, keys, Allocate(a, keys))
  {
    if keys != [] {
      var front, key := keys[..|keys| - 1], keys[|keys| - 1];
      AllocateFacts(a, front);
      var m, b := Allocate(a, front), Allocate(a, keys);
      assert keys == front + [key];
      assert (set k | k in keys) == (set k | k in front) + {key};
      forall i | a.next <= i < b.next
        ensures Hands(a, b, i)
      {
        if i < m.next {
          assert Hands(a, m, i);
          var k :| k in m.mapping && k !in a.mapping && m.mapping[k] == i;
          assert b.mapping[k] == i;
        } else {
          assert b.mapping[key] == i;
        }
      }
    }
  }

  lemma AllocateKeeps(a: Allocation, keys: seq<string>)
    ensures forall k :: k in Allocate(a, keys).mapping <==> k in a.mapping || k in keys
    ensures forall k | k in a.mapping :: Allocate(a, keys).mapping[k] == a.mapping[k]
  {
    AllocateFacts(a, keys);
  }

  lemma {:induction false} AllocateConcat(a: Allocation, xs: seq<string>, ys: seq<string>)
    ensures Allocate(a, xs + ys) == Allocate(Allocate(a, xs), ys)
  {
    if ys == [] {
      assert xs + ys == xs;
    } else {
      AllocateConcat(a, xs, ys[..|ys| - 1]);
      assert (xs + ys)[..|xs + ys| - 1] == xs + ys[..|ys| - 1];
    }
  }

  lemma {:induction false} AllocateKnown(a: Allocation, keys: seq<string>)
    requires forall k | k in keys :: k in a.mapping
    ensures Allocate(a, keys) == a
  {
    if keys != [] {
      AllocateKnown(a, keys[..|keys| - 1]);
    }
  }

  // One revision.

  ghost function Start(r: SchemaRegistry): Allocation {
    Allocation(r.mapping, NextFree(r))
  }

  function Without<K>(m: map<string, K>, keys: seq<string>): map<string, K> {
    map a | a in m && a !in keys :: m[a]
  }

  function Keep<K>(m: map<string, K>, keys: seq<string>): map<string, K> {
    map a | a in m && a in keys :: m[a]
  }

  // `after` is `before` with one record appended for each dropped index that was not burned yet.
  ghost predicate BurnsDropped<K>(dropped: map<string, K>, before: seq<Burned<K>>, after: seq<Burned<K>>) {
    && before <= after
    && (forall k | |before| <= k < |after| ::
          && after[k].attribute in dropped
          && dropped[after[k].attribute] == after[k].index
          && !IsBurned(after[..k], after[k].index))
    && (forall a | a in dropped :: IsBurned(after, dropped[a]))
  }

  lemma SomethingBurned<K>(dropped: map<string, K>, before: seq<Burned<K>>, after: seq<Burned<K>>)
    requires BurnsDropped(dropped, before, after) && after != before
    ensures |after| > |before| && after[|before|].attribute in dropped
        && dropped[after[|before|].attribute] == after[|before|].index
    ensures !IsBurned(before, after[|before|].index)
  {
    assert after[..|before|] == before;
  }

  lemma NothingBurned<K>(dropped: map<string, K>, before: seq<Burned<K>>, after: seq<Burned<K>>)
    requires BurnsDropped(dropped, before, after) && dropped == map[]
    ensures after == before
  {
    if after != before {
      SomethingBurned(dropped, before, after);
    }
  }

  ghost predicate Step(r: SchemaRegistry, keys: seq<string>, r': SchemaRegistry) {
    var a := Allocate(Start(r), keys);
    && r'.nextIndex == a.next
    && r'.mapping == Keep(a.mapping, keys)
    && BurnsDropped(Without(r.mapping, keys), r.burned, r'.burned)
  }

  ghost predicate HasNew(keys: seq<string>, m: map<string, nat>) {
    exists k :: k in keys && k !in m
  }

  ghost predicate ReportsChange(r: SchemaRegistry, keys: seq<string>, r': SchemaRegistry) {
    || NextFree(r) != r.nextIndex
    || HasNew(keys, r.mapping)
    || r'.burned != r.burned
  }

  // The two text maps: attribute to key, and key to attribute with the last writer winning.

  predicate Covers(m: map<string, nat>, keys: seq<string>) {
    forall k | k in keys :: k in m
  }

  function KeyTexts(m: map<string, nat>, keys: seq<string>): map<string, string>
    requires Covers(m, keys)
  {
    map k | k in keys :: Print(m[k], 36)
  }

  function Reverse(mapping: map<string, string>, keys: seq<string>): map<string, string>
    requires forall k | k in keys :: k in mapping
  {
    if keys == [] then map[]
    else Reverse(mapping, keys[..|keys| - 1])[mapping[keys[|keys| - 1]] := keys[|keys| - 1]]
  }

  // The removal loop: entries not in the key list leave the mapping, and their index is
  // burned unless it already was.
  method BurnRemoved<K(==,!new)>(entries: map<string, K>, keys: seq<string>, burned: seq<Burned<K>>)
    returns (mapping: map<string, K>, burned': seq<Burned<K>>, changed: bool)
    ensures mapping == Keep(entries, keys)
    ensures BurnsDropped(Without(entries, keys), burned, burned')
    ensures changed == (burned' != burned)
  {
    ghost var dropped := Without(entries, keys);
    mapping, burned', changed := entries, burned, false;
    var pending := entries.Keys;
    while pending != {}
      invariant pending <= entries.Keys
      invariant mapping == map a | a in entries && (a in keys || a in pending) :: entries[a]
      invariant burned <= burned'
      invariant forall k | |burned| <= k < |burned'| ::
          && burned'[k].attribute in dropped
          && dropped[burned'[k].attribute] == burned'[k].index
          && !IsBurned(burned'[..k], burned'[k].index)
      invariant forall a | a in dropped && a !in pending :: IsBurned(burned', dropped[a])
      invariant changed == (burned' != burned)
    {
      var attr :| attr in pending;
      pending := pending - {attr};
      if attr !in keys {
        var index := entries[attr];
        if !IsBurned(burned', index) {
          BurnedAppend(burned', Burned(index, attr));
          burned' := burned' + [Burned(index, attr)];
          changed := true;
        }
        mapping := mapping - {attr};
      }
    }
  }

  lemma TextsSnoc(m: map<string, nat>, m': map<string, nat>, keys: seq<string>, key: string)
    requires forall k | k in keys :: k in m
    requires forall k | k in m :: k in m' && m'[k] == m[k]
    requires key in m'
    ensures forall k | k in keys + [key] :: k in m'
    ensures KeyTexts(m', keys + [key]) == KeyTexts(m, keys)[key := Print(m'[key], 36)]
    ensures Reverse(KeyTexts(m', keys + [key]), keys + [key])
         == Reverse(KeyTexts(m, keys), keys)[Print(m'[key], 36) := key]
  {
    assert (keys + [key])[..|keys|] == keys;
    ReverseAgrees(KeyTexts(m, keys), KeyTexts(m', keys + [key]), keys);
  }

  lemma NextKey(start: Allocation, keys: seq<string>, n: nat)
    requires n < |keys|
    ensures Allocate(start, keys[..n + 1]) == AllocateOne(Allocate(start, keys[..n]), keys[n])
    ensures HasNew(keys[..n + 1], start.mapping)
        <==> HasNew(keys[..n], start.mapping) || keys[n] !in Allocate(start, keys[..n]).mapping
  {
    assert keys[..n + 1][..n] == keys[..n];
    assert keys[..n + 1] == keys[..n] + [keys[n]];
    AllocateKeeps(start, keys[..n]);
  }

  lemma NextTexts(start: Allocation, keys: seq<string>, n: nat)
    requires n < |keys| && Covers(Allocate(start, keys[..n]).mapping, keys[..n])
    ensures Covers(Allocate(start, keys[..n + 1]).mapping, keys[..n + 1])
    ensures var m, m' := Allocate(start, keys[..n]).mapping, Allocate(start, keys[..n + 1]).mapping;
      && KeyTexts(m', keys[..n + 1]) == KeyTexts(m, keys[..n])[keys[n] := Print(m'[keys[n]], 36)]
      && Reverse(KeyTexts(m', keys[..n + 1]), keys[..n + 1])
          == Reverse(KeyTexts(m, keys[..n]), keys[..n])[Print(m'[keys[n]], 36) := keys[n]]
  {
    NextKey(start, keys, n);
    assert keys[..n + 1] == keys[..n] + [keys[n]];
    TextsSnoc(Allocate(start, keys[..n]).mapping, Allocate(start, keys[..n + 1]).mapping, keys[..n], keys[n]);
  }

  // The allocation loop, filling the two text maps as it goes.
  method AssignKeys(keys: seq<string>, start: Allocation)
    returns (mapping: map<string, string>, reversedMapping: map<string, string>, state: Allocation, changed: bool)
    ensures state == Allocate(start, keys)
    ensures forall k | k in keys :: k in state.mapping
    ensures mapping == KeyTexts(state.mapping, keys)
    ensures reversedMapping == Reverse(mapping, keys)
    ensures changed == HasNew(keys, start.mapping)
  {
    state, mapping, reversedMapping, changed := start, map[], map[], false;
    for n := 0 to |keys|
      invariant state == Allocate(start, keys[..n])
      invariant Covers(state.mapping, keys[..n])
      invariant mapping == KeyTexts(state.mapping, keys[..n])
      invariant reversedMapping == Reverse(mapping, keys[..n])
      invariant changed == HasNew(keys[..n], start.mapping)
    {
      NextKey(start, keys, n);
      NextTexts(start, keys, n);
      var key := keys[n];
      if key !in state.mapping {
        changed := true;
      }
      state := AllocateOne(state, key);
      var base36Key := Encode(state.mapping[key], 36);
      mapping := mapping[key := base36Key];
      reversedMapping := reversedMapping[base36Key := key];
    }
    assert keys[..|keys|] == keys;
  }

  // Allocation adds only listed keys, so the entries dropped are the old ones.
  lemma AllocateDrops(a: Allocation, keys: seq<string>)
    ensures Without(Allocate(a, keys).mapping, keys) == Without(a.mapping, keys)
  {
    AllocateKeeps(a, keys);
  }

  lemma KeptTexts(m: map<string, nat>, keys: seq<string>)
    requires forall k | k in keys :: k in m
    ensures Keep(m, keys).Keys == (set k | k in keys)
    ensures KeyTexts(Keep(m, keys), keys) == KeyTexts(m, keys)
  {
  }

  method GenerateMappingFromRegistry(keys: seq<string>, existing: Option<SchemaRegistry>)
    returns (mapping: map<string, string>, reversedMapping: map<string, string>, registry: SchemaRegistry,
        changed: bool)
    ensures Step(existing.GetOr(EMPTY), keys, registry)
    ensures registry.mapping.Keys == set k | k in keys
    ensures mapping == KeyTexts(registry.mapping, keys)
    ensures reversedMapping == Reverse(mapping, keys)
    ensures changed == ReportsChange(existing.GetOr(EMPTY), keys, registry)
  {
    ghost var r := existing.GetOr(EMPTY);
    registry := existing.GetOr(EMPTY);
    var floor := MaxIndexPlusOne(registry);
    changed := registry.nextIndex < floor;
    if changed {
      registry := registry.(nextIndex := floor);
    }
    NextFreeUnique(r, registry.nextIndex, NextFree(r));
    var state, grew;
    mapping, reversedMapping, state, grew := AssignKeys(keys, Allocation(registry.mapping, registry.nextIndex));
    AllocateDrops(Start(r), keys);
    KeptTexts(state.mapping, keys);
    var kept, burned, burnedAny := BurnRemoved(state.mapping, keys, registry.burned);
    changed := changed || grew || burnedAny;
    registry := SchemaRegistry(state.next, kept, burned);
  }

  lemma BurnedAppend<K(!new)>(bs: seq<Burned<K>>, b: Burned<K>)
    ensures forall i: K :: IsBurned(bs + [b], i) <==> IsBurned(bs, i) || i == b.index
    ensures forall k | 0 <= k <= |bs| :: (bs + [b])[..k] == bs[..k]
  {
    forall i: K
      ensures IsBurned(bs + [b], i) <==> IsBurned(bs, i) || i == b.index
    {
      assert (bs + [b])[|bs|] == b;
      if k :| 0 <= k < |bs| && bs[k].index == i {
        assert (bs + [b])[k].index == i;
      }
    }
  }

  lemma {:induction false} ReverseAgrees(m: map<string, string>, m': map<string, string>, keys: seq<string>)
    requires forall k | k in keys :: k in m && k in m' && m[k] == m'[k]
    ensures Reverse(m, keys) == Reverse(m', keys)
  {
    if keys != [] {
      ReverseAgrees(m, m', keys[..|keys| - 1]);
    }
  }

  // Math.max over the mapped and the burned indices, plus one.
  method MaxIndexPlusOne(r: SchemaRegistry) returns (n: nat)
    ensures forall i: nat | Used(r, i) :: i < n
    ensures n > 0 ==> Used(r, n - 1)
  {
    n := 0;
    var attrs := r.mapping.Keys;
    while attrs != {}
      invariant attrs <= r.mapping.Keys
      invariant forall a | a in r.mapping && a !in attrs :: r.mapping[a] < n
      invariant n > 0 ==> Used(r, n - 1)
    {
      var a :| a in attrs;
      attrs := attrs - {a};
      if n <= r.mapping[a] {
        n := r.mapping[a] + 1;
      }
    }
    for k := 0 to |r.burned|
      invariant forall a | a in r.mapping :: r.mapping[a] < n
      invariant forall j | 0 <= j < k :: r.burned[j].index < n
      invariant n > 0 ==> Used(r, n - 1)
    {
      if n <= r.burned[k].index {
        n := r.burned[k].index + 1;
      }
    }
  }
}
