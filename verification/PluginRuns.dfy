/** Whole runs of one plugin's registry: how long a stored plugin key stays with its attribute. */
module PluginRuns {
  import opened Numerals
  import opened Registry
  import opened RegistryRuns
  import opened PluginKeys

  // Revisions of one plugin, each with its key list and the keys earlier plugins used. A
  // revision without attributes of the plugin drops its registry altogether.
  ghost predicate PluginRevision(hash: Hash, plugin: string, foreign: set<string>, r: PluginRegistry,
                                 keys: seq<string>, r': PluginRegistry) {
    if keys == [] then r' == NO_KEYS else PluginStep(hash, plugin, foreign, r, keys, r')
  }

  ghost predicate PluginRun(hash: Hash, plugin: string, rs: seq<PluginRegistry>, ks: seq<seq<string>>,
                            fs: seq<set<string>>) {
    && |rs| == |ks| + 1 && |fs| == |ks|
    && forall i | 0 <= i < |ks| :: PluginRevision(hash, plugin, fs[i], rs[i], ks[i], rs[i + 1])
  }

  lemma {:induction false} HoldersPersist(hash: Hash, plugin: string, rs: seq<PluginRegistry>, ks: seq<seq<string>>,
                                          fs: seq<set<string>>,
                                          i: nat, j: nat, a: string, key: string)
    requires Shaped(hash) && PluginRun(hash, plugin, rs, ks, fs) && SingleHolder(rs[0])
    requires forall m | 0 <= m < |ks| :: ks[m] != []
    requires i <= j < |rs| && Holds(rs[i], a, key)
    ensures SingleHolder(rs[j]) && Holds(rs[j], a, key)
    decreases j
  {
    SingleThroughout(hash, plugin, rs, ks, fs, j);
    if i < j {
      HoldersPersist(hash, plugin, rs, ks, fs, i, j - 1, a, key);
      PluginStepKeeps(hash, plugin, fs[j - 1], rs[j - 1], ks[j - 1], rs[j], a, key);
    }
  }

  /** Every registry a run reaches from a well-kept one, the empty one for instance, is well
      kept; revisions without attributes of the plugin included. */
  lemma {:induction false} RunWellKept(hash: Hash, plugin: string, rs: seq<PluginRegistry>, ks: seq<seq<string>>,
                                       fs: seq<set<string>>, j: nat)
    requires Shaped(hash) && PluginRun(hash, plugin, rs, ks, fs) && j < |rs|
    requires WellKept(rs[0]) || rs[0] == NO_KEYS
    ensures WellKept(rs[j])
  {
    SingleThroughout(hash, plugin, rs, ks, fs, j);
    if j > 0 {
      RunWellKept(hash, plugin, rs, ks, fs, j - 1);
      if ks[j - 1] != [] {
        AssignShape(hash, plugin, Keys(rs[j - 1].mapping, fs[j - 1] + StoredKeys(rs[j - 1])), ks[j - 1]);
      }
    }
  }

  lemma {:induction false} SingleThroughout(hash: Hash, plugin: string, rs: seq<PluginRegistry>, ks: seq<seq<string>>,
                                            fs: seq<set<string>>, j: nat)
    requires Shaped(hash) && PluginRun(hash, plugin, rs, ks, fs) && SingleHolder(rs[0]) && j < |rs|
    ensures SingleHolder(rs[j])
  {
    if j > 0 {
      SingleThroughout(hash, plugin, rs, ks, fs, j - 1);
      if ks[j - 1] != [] {
        PluginStepSingle(hash, plugin, fs[j - 1], rs[j - 1], ks[j - 1], rs[j]);
      }
    }
  }

  /** Over any run in which the plugin keeps at least one attribute, no stored key is ever
      held by two attributes, exactly when that is so at the start; for any hash and any keys
      other plugins use. */
  lemma PluginKeysNeverReused(hash: Hash, plugin: string, rs: seq<PluginRegistry>, ks: seq<seq<string>>,
                              fs: seq<set<string>>)
    requires Shaped(hash) && PluginRun(hash, plugin, rs, ks, fs)
    requires forall m | 0 <= m < |ks| :: ks[m] != []
    ensures SingleHolder(rs[0]) <==>
              forall i, j, a, b, key | 0 <= i < |rs| && 0 <= j < |rs| && Holds(rs[i], a, key)
                  && Holds(rs[j], b, key) :: a == b
  {
    if SingleHolder(rs[0]) {
      forall i, j, a, b, key | 0 <= i < |rs| && 0 <= j < |rs| && Holds(rs[i], a, key) && Holds(rs[j], b, key)
        ensures a == b
      {
        var top := if i <= j then j else i;
        HoldersPersist(hash, plugin, rs, ks, fs, i, top, a, key);
        HoldersPersist(hash, plugin, rs, ks, fs, j, top, b, key);
      }
    }
  }

  /** The condition is needed: a revision without attributes of the plugin forgets its burned
      keys, so after it another attribute gets a retired key exactly when the hashes collide. */
  lemma ForgottenKeyReused(hash: Hash, plugin: string, rs: seq<PluginRegistry>, a: string, b: string)
    requires Shaped(hash) && PluginRun(hash, plugin, rs, [[a], [], [b]], [{}, {}, {}]) && rs[0] == NO_KEYS
    ensures (exists key :: Holds(rs[1], a, key) && Holds(rs[3], b, key)) <==> hash(plugin, a) == hash(plugin, b)
  {
    var ks: seq<seq<string>>, fs: seq<set<string>> := [[a], [], [b]], [{}, {}, {}];
    assert PluginRevision(hash, plugin, fs[0], rs[0], ks[0], rs[1]);
    assert PluginRevision(hash, plugin, fs[1], rs[1], ks[1], rs[2]);
    assert PluginRevision(hash, plugin, fs[2], rs[2], ks[2], rs[3]);
    FirstStep(hash, plugin, a, rs[1]);
    FirstStep(hash, plugin, b, rs[3]);
    assert Holds(rs[1], a, hash(plugin, a));
  }

  lemma FirstStep(hash: Hash, plugin: string, a: string, r': PluginRegistry)
    requires Shaped(hash) && PluginStep(hash, plugin, {}, NO_KEYS, [a], r')
    ensures r' == PluginRegistry(map[a := hash(plugin, a)], [])
  {
    var h := hash(plugin, a);
    assert {} + StoredKeys(NO_KEYS) == {};
    FirstAssigned(hash, plugin, a);
    assert Keep(map[a := h], [a]) == map[a := h];
    NothingBurned(Without(NO_KEYS.mapping, [a]), NO_KEYS.burned, r'.burned);
  }

  // The converse of FirstStep: that registry is what the first revision leaves.
  lemma FirstStepHolds(hash: Hash, plugin: string, a: string)
    ensures PluginStep(hash, plugin, {}, NO_KEYS, [a], PluginRegistry(map[a := hash(plugin, a)], []))
  {
    var h := hash(plugin, a);
    assert {} + StoredKeys(NO_KEYS) == {};
    FirstAssigned(hash, plugin, a);
    assert Keep(map[a := h], [a]) == map[a := h];
    assert BurnsDropped(Without(NO_KEYS.mapping, [a]), [], []);
  }

  // No key is held by two attributes, at any two moments of the run.
  ghost predicate NeverShared(rs: seq<PluginRegistry>) {
    forall i, j, a, b, key | 0 <= i < |rs| && 0 <= j < |rs| && Holds(rs[i], a, key) && Holds(rs[j], b, key) :: a == b
  }

  // Whatever a run starting empty holds was made from the attribute's own hash.
  lemma {:induction false} HeldIsCandidate(hash: Hash, plugin: string, rs: seq<PluginRegistry>, ks: seq<seq<string>>,
                                           fs: seq<set<string>>, j: nat, a: string, key: string)
    requires Shaped(hash) && PluginRun(hash, plugin, rs, ks, fs) && rs[0] == NO_KEYS
    requires j < |rs| && Holds(rs[j], a, key)
    ensures IsCandidateOf(hash(plugin, a), key) && exists m :: 0 <= m < j && a in ks[m]
  {
    var r, r', keys := rs[j - 1], rs[j], ks[j - 1];
    assert PluginRevision(hash, plugin, fs[j - 1], r, keys, r');
    PluginStepHolders(hash, plugin, fs[j - 1], r, keys, r', a, key);
    if Holds(r, a, key) {
      HeldIsCandidate(hash, plugin, rs, ks, fs, j - 1, a, key);
    } else {
      AssignCandidates(hash, plugin, Keys(r.mapping, fs[j - 1] + StoredKeys(r)), keys);
    }
  }

  lemma SameCandidate(g: string, h: string, key: string)
    requires IsHash(g) && IsHash(h) && IsCandidateOf(g, key) && IsCandidateOf(h, key)
    ensures g == h
  {
    assert key[..4] == g;
    assert key[..4] == h;
  }

  // Names among which no two hash alike.
  ghost predicate InjectiveOn(hash: Hash, plugin: string, names: iset<string>) {
    forall a, b | a in names && b in names && hash(plugin, a) == hash(plugin, b) :: a == b
  }

  // A run from the empty registry over attributes of these names. Revisions without attributes
  // are allowed, and other plugins may use any keys.
  ghost predicate RunOver(hash: Hash, plugin: string, names: iset<string>,
                          rs: seq<PluginRegistry>, ks: seq<seq<string>>, fs: seq<set<string>>) {
    && PluginRun(hash, plugin, rs, ks, fs) && rs[0] == NO_KEYS
    && forall m, a | 0 <= m < |ks| && a in ks[m] :: a in names
  }

  /** Permanence without the proviso: over every run, revisions without attributes of the plugin
      included, no stored key is ever held by two attributes, exactly when no two of the names
      that can occur have the same hash. */
  lemma KeysPermanent(hash: Hash, plugin: string, names: iset<string>)
    requires Shaped(hash)
    ensures (forall rs, ks, fs | RunOver(hash, plugin, names, rs, ks, fs) :: NeverShared(rs))
        <==> InjectiveOn(hash, plugin, names)
  {
    if InjectiveOn(hash, plugin, names) {
      forall rs, ks, fs | RunOver(hash, plugin, names, rs, ks, fs)
        ensures NeverShared(rs)
      {
        InjectiveNeverShared(hash, plugin, names, rs, ks, fs);
      }
    } else {
      var a, b :| a in names && b in names && hash(plugin, a) == hash(plugin, b) && a != b;
      var rs, ks, fs := SharingRun(hash, plugin, a, b);
      assert RunOver(hash, plugin, names, rs, ks, fs) && !NeverShared(rs);
    }
  }

  lemma InjectiveNeverShared(hash: Hash, plugin: string, names: iset<string>,
                             rs: seq<PluginRegistry>, ks: seq<seq<string>>, fs: seq<set<string>>)
    requires Shaped(hash) && InjectiveOn(hash, plugin, names) && RunOver(hash, plugin, names, rs, ks, fs)
    ensures NeverShared(rs)
  {
    forall i, j, a, b, key | 0 <= i < |rs| && 0 <= j < |rs| && Holds(rs[i], a, key) && Holds(rs[j], b, key)
      ensures a == b
    {
      HeldIsCandidate(hash, plugin, rs, ks, fs, i, a, key);
      HeldIsCandidate(hash, plugin, rs, ks, fs, j, b, key);
      SameCandidate(hash(plugin, a), hash(plugin, b), key);
    }
  }

  // a, then nothing, then b: two attributes of one hash get one key.
  lemma SharingRun(hash: Hash, plugin: string, a: string, b: string)
    returns (rs: seq<PluginRegistry>, ks: seq<seq<string>>, fs: seq<set<string>>)
    requires Shaped(hash) && a != b && hash(plugin, a) == hash(plugin, b)
    ensures PluginRun(hash, plugin, rs, ks, fs) && rs[0] == NO_KEYS && ks == [[a], [], [b]] && !NeverShared(rs)
  {
    var key := hash(plugin, a);
    rs := [NO_KEYS, PluginRegistry(map[a := key], []), NO_KEYS, PluginRegistry(map[b := key], [])];
    ks, fs := [[a], [], [b]], [{}, {}, {}];
    FirstStepHolds(hash, plugin, a);
    FirstStepHolds(hash, plugin, b);
    assert PluginRevision(hash, plugin, fs[0], rs[0], ks[0], rs[1]);
    assert PluginRevision(hash, plugin, fs[1], rs[1], ks[1], rs[2]);
    assert PluginRevision(hash, plugin, fs[2], rs[2], ks[2], rs[3]);
    assert Holds(rs[1], a, key) && Holds(rs[3], b, key);
  }

  // How long an attribute keeps its key.

  ghost predicate HasStoredKey(r: PluginRegistry, a: string, key: string) {
    key != "" && a in r.mapping && r.mapping[a] == key
  }

  // One step keeps the key of a listed attribute and retires that of any other for good.
  lemma StepKey(hash: Hash, plugin: string, foreign: set<string>, r: PluginRegistry, keys: seq<string>,
                r': PluginRegistry,
                a: string, key: string)
    requires Shaped(hash) && PluginStep(hash, plugin, foreign, r, keys, r') && key != ""
    ensures HasStoredKey(r, a, key) ==> (HasStoredKey(r', a, key) <==> a in keys)
    ensures HasStoredKey(r, a, key) && a !in keys ==> IsBurned(r'.burned, key)
    ensures IsBurned(r.burned, key) ==> IsBurned(r'.burned, key)
    ensures IsBurned(r.burned, key) && !HasStoredKey(r, a, key) ==> !HasStoredKey(r', a, key)
  {
    var s := Keys(r.mapping, foreign + StoredKeys(r));
    AssignDomain(hash, plugin, s, keys);
    AssignFacts(hash, plugin, s, keys);
    if k :| 0 <= k < |r.burned| && r.burned[k].index == key {
      assert r.burned[k] in r.burned && r'.burned[k] == r.burned[k];
      assert key in StoredKeys(r);
      assert a in keys && !HasKey(r.mapping, a) ==> FreshKey(s, Assign(hash, plugin, s, keys), a);
    }
    if HasStoredKey(r, a, key) && a !in keys {
      assert a in Without(r.mapping, keys);
    }
  }

  lemma {:induction false} RetiredStays(hash: Hash, plugin: string, rs: seq<PluginRegistry>, ks: seq<seq<string>>,
                                        fs: seq<set<string>>, i: nat, j: nat, a: string, key: string)
    requires Shaped(hash) && PluginRun(hash, plugin, rs, ks, fs) && forall m | 0 <= m < |ks| :: ks[m] != []
    requires i <= j < |rs| && key != "" && IsBurned(rs[i].burned, key) && !HasStoredKey(rs[i], a, key)
    ensures IsBurned(rs[j].burned, key) && !HasStoredKey(rs[j], a, key)
    decreases j
  {
    if i < j {
      RetiredStays(hash, plugin, rs, ks, fs, i, j - 1, a, key);
      assert PluginRevision(hash, plugin, fs[j - 1], rs[j - 1], ks[j - 1], rs[j]);
      StepKey(hash, plugin, fs[j - 1], rs[j - 1], ks[j - 1], rs[j], a, key);
    }
  }

  /** Over a run in which the plugin keeps some attribute, an attribute has the key it had at an
      earlier moment exactly when no revision between left it out. */
  lemma {:induction false} PluginKeyKept(hash: Hash, plugin: string, rs: seq<PluginRegistry>, ks: seq<seq<string>>,
                                         fs: seq<set<string>>, i: nat, j: nat, a: string, key: string)
    requires Shaped(hash) && PluginRun(hash, plugin, rs, ks, fs) && forall m | 0 <= m < |ks| :: ks[m] != []
    requires i <= j < |rs| && HasStoredKey(rs[i], a, key)
    ensures HasStoredKey(rs[j], a, key) <==> Survives(ks, a, i, j)
    decreases j - i
  {
    if i < j {
      assert PluginRevision(hash, plugin, fs[i], rs[i], ks[i], rs[i + 1]);
      StepKey(hash, plugin, fs[i], rs[i], ks[i], rs[i + 1], a, key);
      if a in ks[i] {
        PluginKeyKept(hash, plugin, rs, ks, fs, i + 1, j, a, key);
      } else {
        RetiredStays(hash, plugin, rs, ks, fs, i + 1, j, a, key);
      }
    }
  }

  /** Read safety for plugin keys: a key stored for a belongs to an attribute of a later registry
      exactly when a survived, and then to a itself. */
  lemma PluginReadSafety(hash: Hash, plugin: string, rs: seq<PluginRegistry>, ks: seq<seq<string>>,
                         fs: seq<set<string>>,
                         i: nat, j: nat, a: string, key: string)
    requires Shaped(hash) && PluginRun(hash, plugin, rs, ks, fs) && SingleHolder(rs[0])
    requires forall m | 0 <= m < |ks| :: ks[m] != []
    requires i <= j < |rs| && HasStoredKey(rs[i], a, key)
    ensures (exists b :: HasStoredKey(rs[j], b, key)) <==> Survives(ks, a, i, j)
    ensures forall b | HasStoredKey(rs[j], b, key) :: b == a
  {
    PluginKeyKept(hash, plugin, rs, ks, fs, i, j, a, key);
    PluginKeysNeverReused(hash, plugin, rs, ks, fs);
    forall b | HasStoredKey(rs[j], b, key)
      ensures b == a
    {
      assert Holds(rs[j], b, key) && Holds(rs[i], a, key);
    }
  }
}
