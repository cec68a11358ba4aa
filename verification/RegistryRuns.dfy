/** Whole runs of the schema registry: a record written under one revision is read under a
    much later one, so what matters is what any number of `Step`s in a row keeps. */
module RegistryRuns {
  import opened Numerals
  import opened Registry

  // rs[0] is the registry the run starts from; revision i has key list ks[i] and leaves rs[i + 1].
  ghost predicate Run(rs: seq<SchemaRegistry>, ks: seq<seq<string>>) {
    && |rs| == |ks| + 1
    && forall i | 0 <= i < |ks| :: Step(rs[i], ks[i], rs[i + 1])
  }

  // What one step does to the counter and to the mapping, for any registry.
  lemma StepFacts(r: SchemaRegistry, keys: seq<string>, r': SchemaRegistry)
    requires Step(r, keys, r')
    ensures r.nextIndex <= NextFree(r) <= r'.nextIndex == NextFree(r')
    ensures forall a :: a in r'.mapping <==> a in keys
    ensures forall a | a in r.mapping && a in keys :: r'.mapping[a] == r.mapping[a]
    ensures forall a | a !in r.mapping && a in keys :: NextFree(r) <= r'.mapping[a] < r'.nextIndex
  {
    AllocateFacts(Start(r), keys);
    forall i: nat | Used(r', i)
      ensures i < r'.nextIndex
    {
      if a :| a in r'.mapping && r'.mapping[a] == i {
        if a in r.mapping {
          assert Used(r, i);
        }
      } else {
        var k :| 0 <= k < |r'.burned| && r'.burned[k].index == i;
        if k < |r.burned| {
          assert r.burned[k].index == i;
          assert Used(r, i);
        } else {
          assert Used(r, r.mapping[r'.burned[k].attribute]);
        }
      }
    }
    NextFreeUnique(r', r'.nextIndex, NextFree(r'));
  }

  // A step whose keys are exactly the mapped attributes leaves a repaired registry as it was.
  lemma StepIdle(r: SchemaRegistry, keys: seq<string>, r': SchemaRegistry)
    requires Step(r, keys, r') && NextFree(r) == r.nextIndex
    requires forall k :: k in keys <==> k in r.mapping
    ensures r' == r && !ReportsChange(r, keys, r')
  {
    AllocateKnown(Start(r), keys);
    assert r'.mapping == r.mapping;
    NothingBurned(Without(r.mapping, keys), r.burned, r'.burned);
  }

  // Owners come from the old registry or hold an index the step handed out.
  lemma StepOwners(r: SchemaRegistry, keys: seq<string>, r': SchemaRegistry, a: string, i: nat)
    requires Step(r, keys, r') && Owns(r', a, i)
    ensures Owns(r, a, i) || (i >= NextFree(r) && a in keys && a in r'.mapping && r'.mapping[a] == i)
  {
    StepFacts(r, keys, r');
    if a in r'.mapping && r'.mapping[a] == i {
    } else {
      var k :| 0 <= k < |r'.burned| && r'.burned[k] == Burned(i, a);
      if k < |r.burned| {
        assert r.burned[k] == Burned(i, a);
      }
    }
  }

  lemma StepKeepsOwners(r: SchemaRegistry, keys: seq<string>, r': SchemaRegistry, a: string, i: nat)
    requires Step(r, keys, r') && Unambiguous(r) && Owns(r, a, i)
    ensures Owns(r', a, i)
  {
    StepFacts(r, keys, r');
    if Burned(i, a) in r.burned {
      var k :| 0 <= k < |r.burned| && r.burned[k] == Burned(i, a);
      assert r'.burned[k] == Burned(i, a);
    } else if a !in keys {
      assert IsBurned(r'.burned, Without(r.mapping, keys)[a]);
      var k :| 0 <= k < |r'.burned| && r'.burned[k].index == i;
      var b := r'.burned[k].attribute;
      assert r'.burned[k] == Burned(i, b);
      if k < |r.burned| {
        assert r.burned[k] == Burned(i, b);
      }
      assert Owns(r, b, i);
    }
  }

  /** One step keeps the registry unambiguous. */
  lemma StepUnambiguous(r: SchemaRegistry, keys: seq<string>, r': SchemaRegistry)
    requires Step(r, keys, r') && Unambiguous(r)
    ensures Unambiguous(r')
  {
    AllocateFacts(Start(r), keys);
    forall a, b, i | Owns(r', a, i) && Owns(r', b, i)
      ensures a == b
    {
      StepOwners(r, keys, r', a, i);
      StepOwners(r, keys, r', b, i);
      if Owns(r, a, i) || Owns(r, b, i) {
        assert Used(r, i) by { OwnedIsUsed(r, if Owns(r, a, i) then a else b, i); }
      } else {
        assert a !in r.mapping
            && b !in r.mapping by { StepFacts(r, keys, r'); FreshIsNew(r, keys, r', a); FreshIsNew(r, keys, r', b); }
      }
    }
  }

  lemma OwnedIsUsed(r: SchemaRegistry, a: string, i: nat)
    requires Owns(r, a, i)
    ensures Used(r, i)
  {
    if Burned(i, a) in r.burned {
      var k :| 0 <= k < |r.burned| && r.burned[k] == Burned(i, a);
      assert r.burned[k].index == i;
    }
  }

  lemma FreshIsNew(r: SchemaRegistry, keys: seq<string>, r': SchemaRegistry, a: string)
    requires Step(r, keys, r') && a in r'.mapping && r'.mapping[a] >= NextFree(r)
    ensures a !in r.mapping
  {
    StepFacts(r, keys, r');
    if a in r.mapping {
      assert Used(r, r.mapping[a]);
    }
  }

  lemma {:induction false} OwnersPersist(rs: seq<SchemaRegistry>, ks: seq<seq<string>>, i: nat, j: nat, a: string,
                                         n: nat)
    requires Run(rs, ks) && Unambiguous(rs[0]) && i <= j < |rs| && Owns(rs[i], a, n)
    ensures Unambiguous(rs[j]) && Owns(rs[j], a, n)
    decreases j
  {
    RunUnambiguous(rs, ks, j);
    if i < j {
      OwnersPersist(rs, ks, i, j - 1, a, n);
      StepKeepsOwners(rs[j - 1], ks[j - 1], rs[j], a, n);
    }
  }

  lemma {:induction false} RunUnambiguous(rs: seq<SchemaRegistry>, ks: seq<seq<string>>, j: nat)
    requires Run(rs, ks) && Unambiguous(rs[0]) && j < |rs|
    ensures Unambiguous(rs[j])
  {
    if j > 0 {
      RunUnambiguous(rs, ks, j - 1);
      StepUnambiguous(rs[j - 1], ks[j - 1], rs[j]);
    }
  }

  // No index is owned by two attributes, at any two moments of the run.
  ghost predicate NeverReused(rs: seq<SchemaRegistry>) {
    forall i, j, a, b, n | 0 <= i < |rs| && 0 <= j < |rs| && Owns(rs[i], a, n) && Owns(rs[j], b, n) :: a == b
  }

  /** Indices are permanent: over any run no index ever has two owners, mapped or burned,
      exactly when the registry the run starts from has none. */
  lemma IndicesNeverReused(rs: seq<SchemaRegistry>, ks: seq<seq<string>>)
    requires Run(rs, ks)
    ensures NeverReused(rs) <==> Unambiguous(rs[0])
  {
    if Unambiguous(rs[0]) {
      forall i, j, a, b, n | 0 <= i < |rs| && 0 <= j < |rs| && Owns(rs[i], a, n) && Owns(rs[j], b, n)
        ensures a == b
      {
        var top := if i <= j then j else i;
        OwnersPersist(rs, ks, i, top, a, n);
        OwnersPersist(rs, ks, j, top, b, n);
      }
    }
  }

  // Whether attribute a occurs in every key list of revisions i, i + 1, ..., j - 1.
  ghost predicate Survives(ks: seq<seq<string>>, a: string, i: nat, j: nat)
    requires i <= j <= |ks|
  {
    forall m | i <= m < j :: a in ks[m]
  }

  lemma {:induction false} CounterGrows(rs: seq<SchemaRegistry>, ks: seq<seq<string>>, i: nat, j: nat)
    requires Run(rs, ks) && i <= j < |rs|
    ensures NextFree(rs[i]) <= NextFree(rs[j])
    decreases j
  {
    if i < j {
      CounterGrows(rs, ks, i, j - 1);
      StepFacts(rs[j - 1], ks[j - 1], rs[j]);
    }
  }

  /** An attribute that is away at moment i and present later has an index above every index
      used up to moment i: a returning attribute never gets an old index. */
  lemma {:induction false} ReturnsFresh(rs: seq<SchemaRegistry>, ks: seq<seq<string>>, i: nat, j: nat, a: string)
    requires Run(rs, ks) && i <= j < |rs|
    requires a !in rs[i].mapping && a in rs[j].mapping
    ensures rs[j].mapping[a] >= NextFree(rs[i])
    ensures forall h, n: nat | 0 <= h <= i && Used(rs[h], n) :: n < rs[j].mapping[a]
    decreases j
  {
    StepFacts(rs[j - 1], ks[j - 1], rs[j]);
    if a in rs[j - 1].mapping {
      ReturnsFresh(rs, ks, i, j - 1, a);
    } else {
      CounterGrows(rs, ks, i, j - 1);
    }
    forall h, n: nat | 0 <= h <= i && Used(rs[h], n)
      ensures n < rs[j].mapping[a]
    {
      CounterGrows(rs, ks, h, i);
    }
  }

  /** An attribute mapped at moment i still has the same index at moment j exactly when no
      revision between left it out. No hypothesis on the registry is needed. */
  lemma {:induction false} IndexKept(rs: seq<SchemaRegistry>, ks: seq<seq<string>>, i: nat, j: nat, a: string)
    requires Run(rs, ks) && i <= j < |rs| && a in rs[i].mapping
    ensures (a in rs[j].mapping && rs[j].mapping[a] == rs[i].mapping[a]) <==> Survives(ks, a, i, j)
    decreases j
  {
    if i < j {
      IndexKept(rs, ks, i, j - 1, a);
      StepFacts(rs[j - 1], ks[j - 1], rs[j]);
      if !Survives(ks, a, i, j) && a in rs[j].mapping {
        var m :| i <= m < j && a !in ks[m];
        StepFacts(rs[m], ks[m], rs[m + 1]);
        assert Used(rs[i], rs[i].mapping[a]);
        CounterGrows(rs, ks, i, m + 1);
        ReturnsFresh(rs, ks, m + 1, j, a);
      }
    }
  }

  // Reading a stored key: reversedMap[key] || key, an empty name counting as absent.
  function Resolve(reversed: map<string, string>, key: string): string {
    if key in reversed && reversed[key] != "" then reversed[key] else key
  }

  lemma {:induction false} ReverseFacts(m: map<string, string>, keys: seq<string>)
    requires forall k | k in keys :: k in m
    ensures forall t | t in Reverse(m, keys) :: Reverse(m, keys)[t] in keys && m[Reverse(m, keys)[t]] == t
    ensures forall k | k in keys :: m[k] in Reverse(m, keys)
  {
    if keys != [] {
      var front := keys[..|keys| - 1];
      assert keys == front + [keys[|keys| - 1]];
      ReverseFacts(m, front);
    }
  }

  // The text maps revision i leaves behind.
  function WrittenKey(r: SchemaRegistry, a: string): string
    requires a in r.mapping
  {
    Print(r.mapping[a], 36)
  }

  ghost function ReversedMap(rs: seq<SchemaRegistry>, ks: seq<seq<string>>, k: nat): map<string, string>
    requires Run(rs, ks) && k < |ks|
  {
    StepFacts(rs[k], ks[k], rs[k + 1]);
    Reverse(KeyTexts(rs[k + 1].mapping, ks[k]), ks[k])
  }

  /** Read safety. A key written by revision j and resolved by a later revision k comes back
      as the attribute it was written for exactly when that attribute survived; otherwise it
      comes back as the bare key, so never as another attribute unless one bears that name. */
  lemma ReadSafety(rs: seq<SchemaRegistry>, ks: seq<seq<string>>, j: nat, k: nat, a: string)
    requires Run(rs, ks) && Unambiguous(rs[0]) && j <= k < |ks| && a in ks[j]
    ensures a in rs[j + 1].mapping
    ensures var key := WrittenKey(rs[j + 1], a);
      && Resolve(ReversedMap(rs, ks, k), key) == (if a != "" && Survives(ks, a, j + 1, k + 1) then a else key)
      && ((Resolve(ReversedMap(rs, ks, k), key) != a && Resolve(ReversedMap(rs, ks, k), key) in ks[k])
          <==> key in ks[k] && key != a && !(a != "" && Survives(ks, a, j + 1, k + 1)))
  {
    StepFacts(rs[j], ks[j], rs[j + 1]);
    StepFacts(rs[k], ks[k], rs[k + 1]);
    var n, key := rs[j + 1].mapping[a], WrittenKey(rs[j + 1], a);
    var texts := KeyTexts(rs[k + 1].mapping, ks[k]);
    var reversed := ReversedMap(rs, ks, k);
    ReverseFacts(texts, ks[k]);
    IndexKept(rs, ks, j + 1, k + 1, a);
    if key in reversed {
      var b := reversed[key];
      PrintInjective(rs[k + 1].mapping[b], n, 36);
      IndicesNeverReused(rs, ks);
      assert Owns(rs[k + 1], b, n) && Owns(rs[j + 1], a, n);
      assert a == b;
    }
    if Survives(ks, a, j + 1, k + 1) {
      assert texts[a] == key;
    }
  }

  // Conservation.

  // The used indices are exactly 0 .. nextIndex - 1, each standing in one place only.
  ghost predicate Conserved(r: SchemaRegistry) {
    && (forall a, b | a in r.mapping && b in r.mapping && r.mapping[a] == r.mapping[b] :: a == b)
    && (forall k, l | 0 <= k < l < |r.burned| :: r.burned[k].index != r.burned[l].index)
    && (forall a | a in r.mapping :: !IsBurned(r.burned, r.mapping[a]))
    && (forall i: nat :: Used(r, i) <==> i < r.nextIndex)
  }

  // The burned indices after a step: the old ones and the dropped ones.
  lemma BurnedParts(r: SchemaRegistry, keys: seq<string>, r': SchemaRegistry, i: nat)
    requires Step(r, keys, r')
    ensures IsBurned(r'.burned, i)
        <==> IsBurned(r.burned, i) || exists a :: a in r.mapping && a !in keys && r.mapping[a] == i
  {
    if IsBurned(r.burned, i) {
      var k :| 0 <= k < |r.burned| && r.burned[k].index == i;
      assert r'.burned[k].index == i;
    } else if a :| a in r.mapping && a !in keys && r.mapping[a] == i {
      assert IsBurned(r'.burned, Without(r.mapping, keys)[a]);
    }
  }

  lemma StepPlaces(r: SchemaRegistry, keys: seq<string>, r': SchemaRegistry)
    requires Step(r, keys, r') && Conserved(r)
    ensures forall a, b | a in r'.mapping && b in r'.mapping && r'.mapping[a] == r'.mapping[b] :: a == b
    ensures forall k, l | 0 <= k < l < |r'.burned| :: r'.burned[k].index != r'.burned[l].index
    ensures forall a | a in r'.mapping :: !IsBurned(r'.burned, r'.mapping[a])
  {
    AllocateFacts(Start(r), keys);
    forall k, l | 0 <= k < l < |r'.burned|
      ensures r'.burned[k].index != r'.burned[l].index
    {
      if l >= |r.burned| {
        assert !IsBurned(r'.burned[..l], r'.burned[l].index);
        assert r'.burned[..l][k] == r'.burned[k];
      }
    }
    forall a | a in r.mapping
      ensures r.mapping[a] < NextFree(r)
    {
      assert Used(r, r.mapping[a]);
    }
    forall a | a in r'.mapping
      ensures !IsBurned(r'.burned, r'.mapping[a])
    {
      BurnedParts(r, keys, r', r'.mapping[a]);
      assert IsBurned(r.burned, r'.mapping[a]) ==> Used(r, r'.mapping[a]);
    }
  }

  lemma StepConserves(r: SchemaRegistry, keys: seq<string>, r': SchemaRegistry)
    requires Step(r, keys, r') && Conserved(r)
    ensures Conserved(r')
  {
    NextFreeUnique(r, r.nextIndex, NextFree(r));
    StepPlaces(r, keys, r');
    StepFacts(r, keys, r');
    forall i: nat
      ensures Used(r', i) <==> i < r'.nextIndex
    {
      BurnedParts(r, keys, r', i);
      if i < r.nextIndex {
        assert Used(r, i);
        if a :| a in r.mapping && r.mapping[a] == i {
          assert a in keys ==> r'.mapping[a] == i;
        }
      } else if i < r'.nextIndex {
        AllocateFacts(Start(r), keys);
        assert Hands(Start(r), Allocate(Start(r), keys), i);
        var a :| a in r'.mapping && r'.mapping[a] == i;
      }
    }
  }

  lemma {:induction false} ConservedRun(rs: seq<SchemaRegistry>, ks: seq<seq<string>>, j: nat)
    requires Run(rs, ks) && rs[0] == EMPTY && j < |rs|
    ensures Conserved(rs[j])
  {
    if j == 0 {
      EmptyConserved();
    } else {
      ConservedRun(rs, ks, j - 1);
      StepConserves(rs[j - 1], ks[j - 1], rs[j]);
    }
  }

  /** The burned list only ever grows by appending, in any run. */
  lemma {:induction false} BurnedGrows(rs: seq<SchemaRegistry>, ks: seq<seq<string>>, i: nat, j: nat)
    requires Run(rs, ks) && i <= j < |rs|
    ensures rs[i].burned <= rs[j].burned
    decreases j
  {
    if i < j {
      BurnedGrows(rs, ks, i, j - 1);
      assert Step(rs[j - 1], ks[j - 1], rs[j]);
    }
  }

  /** In every run from the empty registry the mapped and the burned indices partition
      0 .. nextIndex - 1, so their counts add up to nextIndex. */
  lemma Conservation(rs: seq<SchemaRegistry>, ks: seq<seq<string>>, j: nat)
    requires Run(rs, ks) && rs[0] == EMPTY && j < |rs|
    ensures Conserved(rs[j]) && |rs[j].mapping| + |rs[j].burned| == rs[j].nextIndex
  {
    ConservedRun(rs, ks, j);
    ConservedCount(rs[j]);
  }

  lemma EmptyConserved()
    ensures Conserved(EMPTY)
  {
    assert forall i: nat :: !Used(EMPTY, i);
  }

  lemma ConservedCount(r: SchemaRegistry)
    requires Conserved(r)
    ensures |r.mapping| + |r.burned| == r.nextIndex
  {
    MappedCount(r.mapping);
    BurnedCount(r.burned);
    BelowFacts(r.nextIndex);
    IndicesPartition(r);
    assert |MappedIndices(r.mapping) + BurnedIndices(r.burned)|
        == |MappedIndices(r.mapping)| + |BurnedIndices(r.burned)|;
  }

  lemma IndicesPartition(r: SchemaRegistry)
    requires Conserved(r)
    ensures MappedIndices(r.mapping) + BurnedIndices(r.burned) == Below(r.nextIndex)
    ensures MappedIndices(r.mapping) !! BurnedIndices(r.burned)
  {
    BelowFacts(r.nextIndex);
    forall i: nat
      ensures i in MappedIndices(r.mapping) + BurnedIndices(r.burned) <==> i in Below(r.nextIndex)
    {
      assert Used(r, i) <==> i < r.nextIndex;
    }
  }

  ghost function MappedIndices(m: map<string, nat>): (s: set<nat>)
    ensures forall i: nat :: i in s <==> exists a :: a in m && m[a] == i
  {
    set a | a in m :: m[a]
  }

  ghost function BurnedIndices(bs: seq<Burned<nat>>): (s: set<nat>)
    ensures forall i: nat :: i in s <==> IsBurned(bs, i)
  {
    set k | 0 <= k < |bs| :: bs[k].index
  }

  lemma MappedSplit(m: map<string, nat>, a: string)
    requires a in m
    ensures MappedIndices(m) == MappedIndices(m - {a}) + {m[a]}
  {
    var rest := m - {a};
    forall i: nat
      ensures i in MappedIndices(m) <==> i in MappedIndices(rest) + {m[a]}
    {
      if b :| b in m && m[b] == i {
        assert b != a ==> b in rest && rest[b] == i;
      }
      if b :| b in rest && rest[b] == i {
        assert m[b] == i;
      }
    }
  }

  lemma {:induction false} MappedCount(m: map<string, nat>)
    requires forall a, b | a in m && b in m && m[a] == m[b] :: a == b
    ensures |MappedIndices(m)| == |m|
    decreases |m|
  {
    if m != map[] {
      var a :| a in m;
      MappedCount(m - {a});
      MappedSplit(m, a);
      assert m[a] !in MappedIndices(m - {a});
    }
  }

  lemma {:induction false} BurnedCount(bs: seq<Burned<nat>>)
    requires forall k, l | 0 <= k < l < |bs| :: bs[k].index != bs[l].index
    ensures |BurnedIndices(bs)| == |bs|
  {
    if bs != [] {
      var front, last := bs[..|bs| - 1], bs[|bs| - 1];
      BurnedCount(front);
      BurnedAppend(front, last);
      assert bs == front + [last];
      assert BurnedIndices(bs) == BurnedIndices(front) + {last.index};
      assert !IsBurned(front, last.index);
    }
  }

  ghost function Below(n: nat): set<nat> {
    if n == 0 then {} else Below(n - 1) + {n - 1}
  }

  lemma {:induction false} BelowFacts(n: nat)
    ensures forall i: nat :: i in Below(n) <==> i < n
    ensures |Below(n)| == n
  {
    if n > 0 {
      BelowFacts(n - 1);
      assert n - 1 !in Below(n - 1);
      assert |Below(n - 1) + {n - 1}| == |Below(n - 1)| + 1;
    }
  }

  // A step that removes attributes without a trace: every dropped index was burned already.
  ghost predicate DropsSilently(r: SchemaRegistry, keys: seq<string>) {
    && NextFree(r) == r.nextIndex
    && (forall k | k in keys :: k in r.mapping)
    && (exists a :: a in r.mapping && a !in keys)
    && (forall a | a in r.mapping && a !in keys :: IsBurned(r.burned, r.mapping[a]))
  }

  /** It happens: an index that is both mapped and burned, as merging the registries of two
      writers can leave it, goes without a trace when its attribute is dropped. */
  lemma SilentDrop(a: string)
    ensures var r, r' := SchemaRegistry(1, map[a := 0], [Burned(0, a)]), SchemaRegistry(1, map[], [Burned(0, a)]);
      Step(r, [], r') && DropsSilently(r, []) && r' != r && !ReportsChange(r, [], r')
  {
    var r, r' := SchemaRegistry(1, map[a := 0], [Burned(0, a)]), SchemaRegistry(1, map[], [Burned(0, a)]);
    assert r.burned[0].index == 0;
    assert a in r.mapping && r.mapping[a] == 0;
    NextFreeUnique(r, 1, NextFree(r));
    assert BurnsDropped(Without(r.mapping, []), r.burned, r'.burned);
    assert Keep(r.mapping, []) == map[];
  }

  /** The `changed` flag is true only if the step changed the registry, and it misses a change
      exactly when every attribute dropped had an already burned index and nothing else happened. */
  lemma ChangedFlag(r: SchemaRegistry, keys: seq<string>, r': SchemaRegistry)
    requires Step(r, keys, r')
    ensures ReportsChange(r, keys, r') ==> r' != r
    ensures !ReportsChange(r, keys, r') && r' != r <==> DropsSilently(r, keys)
  {
    StepFacts(r, keys, r');
    if forall k | k in keys :: k in r.mapping {
      AllocateKnown(Start(r), keys);
      assert (exists a :: a in r.mapping && a !in keys) || r'.mapping == r.mapping;
      if r'.burned == r.burned {
        forall a | a in r.mapping && a !in keys
          ensures IsBurned(r.burned, r.mapping[a])
        {
          assert IsBurned(r'.burned, Without(r.mapping, keys)[a]);
        }
      } else {
        // The first record appended is a dropped index that was not burned.
        var k := |r.burned|;
        assert r'.burned[..k] == r.burned;
        assert Without(r.mapping, keys)[r'.burned[k].attribute] == r'.burned[k].index;
      }
    }
  }

  /** With indices conserved, as in every run from the empty registry, the flag is exact. */
  lemma ChangedFlagExact(r: SchemaRegistry, keys: seq<string>, r': SchemaRegistry)
    requires Step(r, keys, r') && Conserved(r)
    ensures ReportsChange(r, keys, r') <==> r' != r
  {
    ChangedFlag(r, keys, r');
  }

  lemma {:induction false} AllocateInOrder(a: Allocation, keys: seq<string>, i: nat, j: nat)
    requires i < j < |keys| && keys[i] !in a.mapping && keys[j] !in a.mapping && keys[j] !in keys[..j]
    ensures keys[i] in Allocate(a, keys).mapping && keys[j] in Allocate(a, keys).mapping
    ensures Allocate(a, keys).mapping[keys[i]] < Allocate(a, keys).mapping[keys[j]]
  {
    var front, last := keys[..|keys| - 1], keys[|keys| - 1];
    AllocateFacts(a, keys);
    AllocateFacts(a, front);
    assert front[i] == keys[i];
    if j < |front| {
      assert front[..j] == keys[..j] && front[j] == keys[j];
      AllocateInOrder(a, front, i, j);
    } else {
      assert keys[..j] == front;
    }
  }

  /** New attributes get their indices in the order of the list, from the repaired counter on. */
  lemma NewInOrder(r: SchemaRegistry, keys: seq<string>, r': SchemaRegistry, i: nat, j: nat)
    requires Step(r, keys, r') && i < j < |keys|
    requires keys[i] !in r.mapping && keys[j] !in r.mapping && keys[j] !in keys[..j]
    ensures keys[i] in r'.mapping && keys[j] in r'.mapping
    ensures NextFree(r) <= r'.mapping[keys[i]] < r'.mapping[keys[j]] < r'.nextIndex
  {
    StepFacts(r, keys, r');
    AllocateInOrder(Start(r), keys, i, j);
  }

  // Positional keys, the map a schema without a registry gets.

  function PositionalMap(keys: seq<string>): map<string, string> {
    if keys == [] then map[] else PositionalMap(keys[..|keys| - 1])[keys[|keys| - 1] := Print(|keys| - 1, 36)]
  }

  function PositionalReverse(keys: seq<string>): map<string, string> {
    if keys == [] then map[] else PositionalReverse(keys[..|keys| - 1])[Print(|keys| - 1, 36) := keys[|keys| - 1]]
  }

  ghost predicate Distinct(keys: seq<string>) {
    forall i, j | 0 <= i < j < |keys| :: keys[i] != keys[j]
  }

  method GenerateBase36Mapping(keys: seq<string>)
    returns (mapping: map<string, string>, reversedMapping: map<string, string>)
    ensures mapping == PositionalMap(keys)
    ensures reversedMapping == PositionalReverse(keys)
  {
    mapping, reversedMapping := map[], map[];
    for index := 0 to |keys|
      invariant mapping == PositionalMap(keys[..index])
      invariant reversedMapping == PositionalReverse(keys[..index])
    {
      assert keys[..index + 1][..index] == keys[..index];
      var base36Key := Encode(index, 36);
      mapping := mapping[keys[index] := base36Key];
      reversedMapping := reversedMapping[base36Key := keys[index]];
    }
    assert keys[..|keys|] == keys;
  }

  lemma {:induction false} PositionalFacts(keys: seq<string>)
    ensures forall k :: k in PositionalMap(keys) <==> k in keys
    ensures forall i | 0 <= i < |keys| && (forall j | i < j < |keys| :: keys[j] != keys[i]) ::
        PositionalMap(keys)[keys[i]] == Print(i, 36)
    ensures forall i: nat :: Print(i, 36) in PositionalReverse(keys) <==> i < |keys|
    ensures forall i: nat | i < |keys| :: PositionalReverse(keys)[Print(i, 36)] == keys[i]
  {
    if keys != [] {
      var last := |keys| - 1;
      var front := keys[..last];
      assert keys == front + [keys[last]];
      PositionalFacts(front);
      forall i: nat
        ensures Print(i, 36) in PositionalReverse(keys) <==> i < |keys|
        ensures i < |keys| ==> PositionalReverse(keys)[Print(i, 36)] == keys[i]
      {
        if Print(i, 36) == Print(last, 36) {
          PrintInjective(i, last, 36);
        }
      }
    }
  }

  /** Positional keys lack read safety: a key written for the i-th attribute of one list comes
      back under another list as whatever attribute stands at position i there. */
  lemma PositionalReads(written: seq<string>, read: seq<string>, i: nat)
    requires Distinct(written) && i < |written|
    ensures written[i] in PositionalMap(written)
    ensures var key := PositionalMap(written)[written[i]];
      Resolve(PositionalReverse(read), key) == if i < |read| && read[i] != "" then read[i] else key
  {
    PositionalFacts(written);
    PositionalFacts(read);
    assert forall j | i < j < |written| :: written[j] != written[i];
  }

  /** Dropping one attribute shifts every later one: each stored value is read as its successor. */
  lemma PositionalShift(keys: seq<string>, d: nat, i: nat)
    requires Distinct(keys) && d <= i && i + 1 < |keys| && keys[i + 1] != ""
    ensures keys[i] in PositionalMap(keys)
    ensures Resolve(PositionalReverse(keys[..d] + keys[d + 1..]), PositionalMap(keys)[keys[i]])
        == keys[i + 1] != keys[i]
  {
    var read := keys[..d] + keys[d + 1..];
    assert |read| == |keys| - 1 && read[i] == keys[i + 1];
    PositionalReads(keys, read, i);
  }
}
