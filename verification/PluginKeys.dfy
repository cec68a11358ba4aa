/** Plugin attribute keys (src/schema.class.ts): a hash of the attribute, made unique by probing
    with a decimal suffix, and kept in a registry per plugin. The SHA-256 hash is any function
    to texts of the right shape. */
module PluginKeys {
  import opened Numerals
  import opened Registry
  import SchemaMap

  type Hash = (string, string) -> string

  // 'p' and three lower-case base-36 characters: what `generatePluginAttributeHash` returns.
  predicate IsHash(h: string) {
    |h| == 4 && h[0] == 'p' && IsNumeral(h[1..], 36)
  }

  // The hash has the shape the source gives it.
  ghost predicate Shaped(hash: Hash) {
    forall p, a :: IsHash(hash(p, a))
  }

  // The n-th text probed: the hash itself, then the hash with suffix 1, 2, ...
  function Candidate(h: string, n: nat): string {
    if n == 0 then h else h + Print(n, 10)
  }

  /** The texts probed: the hash, then the hash followed by 1, 2, 3 ... in decimal. */
  lemma CandidateText(h: string, n: nat)
    ensures Candidate(h, 0) == h
    ensures n >= 1 ==>
      exists suffix :: Candidate(h, n) == h + suffix && IsCanonical(suffix, 10) && Value(suffix, 10) == n
  {
    PrintShape(n, 10);
    ValuePrint(n, 10);
    if n >= 1 {
      assert Candidate(h, n) == h + Print(n, 10);
    }
  }

  lemma CandidateInjective(h: string, m: nat, n: nat)
    requires Candidate(h, m) == Candidate(h, n)
    ensures m == n
  {
    PrintShape(m, 10);
    PrintShape(n, 10);
    if m > 0 && n > 0 {
      assert Candidate(h, m)[|h|..] == Print(m, 10);
      assert Candidate(h, n)[|h|..] == Print(n, 10);
      PrintInjective(m, n, 10);
    }
  }

  ghost predicate AllTaken(h: string, used: set<string>, n: nat) {
    forall m: nat | m < n :: Candidate(h, m) in used
  }

  lemma {:induction false} TakenBound(h: string, used: set<string>, n: nat)
    requires AllTaken(h, used, n)
    ensures n <= |used|
  {
    if n > 0 {
      var last := Candidate(h, n - 1);
      forall m: nat | m < n - 1
        ensures Candidate(h, m) in used - {last}
      {
        if Candidate(h, m) == last {
          CandidateInjective(h, m, n - 1);
        }
      }
      TakenBound(h, used - {last}, n - 1);
    }
  }

  // The first free candidate.
  ghost predicate FirstFree(h: string, used: set<string>, n: nat) {
    AllTaken(h, used, n) && Candidate(h, n) !in used
  }

  lemma FirstFreeUnique(h: string, used: set<string>, m: nat, n: nat)
    requires FirstFree(h, used, m) && FirstFree(h, used, n)
    ensures m == n
  {
  }

  lemma {:induction false} FirstFreeExists(h: string, used: set<string>, n: nat)
    requires AllTaken(h, used, n) && n <= |used| + 1
    ensures exists m: nat :: FirstFree(h, used, m)
    decreases |used| + 1 - n
  {
    TakenBound(h, used, n);
    if Candidate(h, n) in used {
      assert AllTaken(h, used, n + 1);
      FirstFreeExists(h, used, n + 1);
    } else {
      assert FirstFree(h, used, n);
    }
  }

  ghost function Probed(h: string, used: set<string>): (key: string)
    ensures key !in used
    ensures exists n: nat :: FirstFree(h, used, n) && key == Candidate(h, n)
  {
    FirstFreeExists(h, used, 0);
    var n: nat :| FirstFree(h, used, n);
    Candidate(h, n)
  }

  /** Probing ends: at most |used| + 1 candidates are looked at, whatever the hash, and the
      first free one is returned. */
  method Probe(h: string, used: set<string>) returns (key: string, ghost n: nat)
    ensures key == Probed(h, used) && key == Candidate(h, n)
    ensures n <= |used| && FirstFree(h, used, n)
  {
    key, n := h, 0;
    var counter := 1;
    TakenBound(h, used, 0);
    while key in used
      invariant n == counter - 1 && key == Candidate(h, n)
      invariant AllTaken(h, used, n) && n <= |used|
      decreases |used| - n
    {
      n := n + 1;
      TakenBound(h, used, n);
      var suffix := Encode(counter, 10);
      key := h + suffix;
      counter := counter + 1;
    }
    ghost var m: nat :| FirstFree(h, used, m) && Probed(h, used) == Candidate(h, m);
    FirstFreeUnique(h, used, m, n);
  }

  // Without a registry: keys in list order.

  datatype PluginAttribute = PluginAttribute(key: string, pluginName: string)
  datatype PluginMaps = PluginMaps(mapping: map<string, string>, reversed: map<string, string>, used: set<string>)

  ghost function PluginMap(hash: Hash, attributes: seq<PluginAttribute>): PluginMaps {
    if attributes == [] then PluginMaps(map[], map[], {})
    else
      var front, last := PluginMap(hash, attributes[..|attributes| - 1]), attributes[|attributes| - 1];
      var key := Probed(hash(last.pluginName, last.key), front.used);
      PluginMaps(front.mapping[last.key := key], front.reversed[key := last.key], front.used + {key})
  }

  method GeneratePluginMapping(hash: Hash, attributes: seq<PluginAttribute>)
    returns (mapping: map<string, string>, reversedMapping: map<string, string>)
    ensures mapping == PluginMap(hash, attributes).mapping
    ensures reversedMapping == PluginMap(hash, attributes).reversed
  {
    mapping, reversedMapping := map[], map[];
    var usedHashes: set<string> := {};
    for i := 0 to |attributes|
      invariant PluginMap(hash, attributes[..i]) == PluginMaps(mapping, reversedMapping, usedHashes)
    {
      assert attributes[..i + 1][..i] == attributes[..i];
      var attribute := attributes[i];
      var key, n := Probe(hash(attribute.pluginName, attribute.key), usedHashes);
      usedHashes := usedHashes + {key};
      mapping := mapping[attribute.key := key];
      reversedMapping := reversedMapping[key := attribute.key];
    }
    assert attributes[..|attributes|] == attributes;
  }

  ghost predicate DistinctKeys(attributes: seq<PluginAttribute>) {
    forall i, j | 0 <= i < j < |attributes| :: attributes[i].key != attributes[j].key
  }

  lemma {:induction false} PluginMapDomain(hash: Hash, attributes: seq<PluginAttribute>)
    ensures forall k ::
              k in PluginMap(hash, attributes).mapping <==> exists i :: 0 <= i < |attributes| && attributes[i].key == k
  {
    if attributes != [] {
      PluginMapDomain(hash, attributes[..|attributes| - 1]);
    }
  }

  /** Whatever the hash collides on, no two plugin attributes share a key, and the reverse map
      is the exact inverse. */
  lemma {:induction false} PluginMapInverse(hash: Hash, attributes: seq<PluginAttribute>)
    requires DistinctKeys(attributes)
    ensures SchemaMap.Inverse(PluginMap(hash, attributes).mapping, PluginMap(hash, attributes).reversed)
    ensures forall t :: t in PluginMap(hash, attributes).used <==> t in PluginMap(hash, attributes).reversed
  {
    if attributes != [] {
      PluginMapInverse(hash, attributes[..|attributes| - 1]);
      PluginMapDomain(hash, attributes[..|attributes| - 1]);
    }
  }

  /** Appending attributes never moves the key of an earlier one. */
  lemma {:induction false} PluginMapStable(hash: Hash, attributes: seq<PluginAttribute>, n: nat, i: nat)
    requires DistinctKeys(attributes) && i < n <= |attributes|
    ensures attributes[i].key in PluginMap(hash, attributes).mapping
        && attributes[i].key in PluginMap(hash, attributes[..n]).mapping
    ensures PluginMap(hash, attributes).mapping[attributes[i].key]
        == PluginMap(hash, attributes[..n]).mapping[attributes[i].key]
    decreases |attributes|
  {
    PluginMapDomain(hash, attributes[..n]);
    assert attributes[..n][i] == attributes[i];
    if n < |attributes| {
      var front := attributes[..|attributes| - 1];
      PluginMapStable(hash, front, n, i);
      assert front[..n] == attributes[..n];
    } else {
      assert attributes[..n] == attributes;
    }
  }

  // An attribute listed before the i-th has the key.
  ghost predicate EarlierKey(mapping: map<string, string>, attributes: seq<PluginAttribute>, i: nat, t: string) {
    exists j :: 0 <= j < i && j < |attributes| && attributes[j].key in mapping && mapping[attributes[j].key] == t
  }

  // The keys in use when the i-th attribute is reached are those of the attributes before it.
  lemma KeysInUse(hash: Hash, attributes: seq<PluginAttribute>, i: nat, t: string)
    requires DistinctKeys(attributes) && i < |attributes|
    ensures t in PluginMap(hash, attributes[..i]).used
        <==> EarlierKey(PluginMap(hash, attributes).mapping, attributes, i, t)
  {
    var front := PluginMap(hash, attributes[..i]);
    PluginMapInverse(hash, attributes[..i]);
    PluginMapDomain(hash, attributes[..i]);
    forall j | 0 <= j < i
      ensures attributes[j].key in front.mapping && attributes[j].key in PluginMap(hash, attributes).mapping
      ensures PluginMap(hash, attributes).mapping[attributes[j].key] == front.mapping[attributes[j].key]
    {
      PluginMapStable(hash, attributes, i, j);
    }
    if t in front.used {
      var name := front.reversed[t];
      var j :| 0 <= j < i && attributes[..i][j].key == name;
      assert attributes[j].key == name;
    }
  }

  // The first candidate that no attribute listed before the i-th has.
  ghost predicate FirstLeft(mapping: map<string, string>, attributes: seq<PluginAttribute>, i: nat, h: string, n: nat) {
    && !EarlierKey(mapping, attributes, i, Candidate(h, n))
    && forall m: nat | m < n :: EarlierKey(mapping, attributes, i, Candidate(h, m))
  }

  /** The key of an attribute is the first candidate of the hash of its own plugin and name that
      no attribute listed earlier has; so it is the hash itself exactly when none has that. */
  lemma OwnHash(hash: Hash, attributes: seq<PluginAttribute>, i: nat)
    requires DistinctKeys(attributes) && i < |attributes|
    ensures var mapping, h := PluginMap(hash, attributes).mapping, hash(attributes[i].pluginName, attributes[i].key);
      && attributes[i].key in mapping
      && (exists n: nat :: FirstLeft(mapping, attributes, i, h, n) && mapping[attributes[i].key] == Candidate(h, n))
      && (mapping[attributes[i].key] == h <==> !EarlierKey(mapping, attributes, i, h))
  {
    var mapping, h := PluginMap(hash, attributes).mapping, hash(attributes[i].pluginName, attributes[i].key);
    var used := PluginMap(hash, attributes[..i]).used;
    OwnProbe(hash, attributes, i);
    var key := Probed(h, used);
    var n: nat :| FirstFree(h, used, n) && key == Candidate(h, n);
    forall m: nat | m <= n
      ensures EarlierKey(mapping, attributes, i, Candidate(h, m)) <==> Candidate(h, m) in used
    {
      KeysInUse(hash, attributes, i, Candidate(h, m));
    }
    assert FirstLeft(mapping, attributes, i, h, n);
    BareWhenLeft(mapping, attributes, i, h, n);
  }

  lemma OwnProbe(hash: Hash, attributes: seq<PluginAttribute>, i: nat)
    requires DistinctKeys(attributes) && i < |attributes|
    ensures attributes[i].key in PluginMap(hash, attributes).mapping
    ensures PluginMap(hash, attributes).mapping[attributes[i].key]
        == Probed(hash(attributes[i].pluginName, attributes[i].key), PluginMap(hash, attributes[..i]).used)
  {
    PluginMapStable(hash, attributes, i + 1, i);
    assert attributes[..i + 1][..i] == attributes[..i];
  }

  lemma BareWhenLeft(mapping: map<string, string>, attributes: seq<PluginAttribute>, i: nat, h: string, n: nat)
    requires FirstLeft(mapping, attributes, i, h, n)
    ensures Candidate(h, n) == h <==> !EarlierKey(mapping, attributes, i, h)
  {
    assert Candidate(h, 0) == h;
    if Candidate(h, n) == h {
      CandidateInjective(h, n, 0);
    }
  }

  ghost predicate IsPluginKey(t: string) {
    exists h, n: nat :: IsHash(h) && t == Candidate(h, n)
  }

  lemma {:induction false} PluginMapShape(hash: Hash, attributes: seq<PluginAttribute>)
    requires Shaped(hash)
    ensures forall t | t in PluginMap(hash, attributes).reversed :: IsPluginKey(t)
  {
    if attributes != [] {
      var last := attributes[|attributes| - 1];
      PluginMapShape(hash, attributes[..|attributes| - 1]);
      assert IsHash(hash(last.pluginName, last.key));
    }
  }

  // With a registry, plugin by plugin.

  datatype PluginRegistry = PluginRegistry(mapping: map<string, string>, burned: seq<Burned<string>>)

  const NO_KEYS: PluginRegistry := PluginRegistry(map[], [])

  // Mapping and used keys while the attributes of one plugin are assigned.
  datatype Keys = Keys(mapping: map<string, string>, used: set<string>)

  // An empty stored key counts as no key.
  predicate HasKey(mapping: map<string, string>, a: string) {
    a in mapping && mapping[a] != ""
  }

  ghost function AssignOne(hash: Hash, plugin: string, s: Keys, a: string): Keys {
    if HasKey(s.mapping, a) then s
    else
      var key := Probed(hash(plugin, a), s.used);
      Keys(s.mapping[a := key], s.used + {key})
  }

  ghost function Assign(hash: Hash, plugin: string, s: Keys, keys: seq<string>): Keys {
    if keys == [] then s else AssignOne(hash, plugin, Assign(hash, plugin, s, keys[..|keys| - 1]), keys[|keys| - 1])
  }

  function StoredKeys(r: PluginRegistry): set<string> {
    r.mapping.Values + set b | b in r.burned :: b.index
  }

  // One call for one plugin; `foreign` are the keys earlier plugins of the call already used.
  ghost predicate PluginStep(hash: Hash, plugin: string, foreign: set<string>, r: PluginRegistry, keys: seq<string>,
                             r': PluginRegistry) {
    && r'.mapping == Keep(Assign(hash, plugin, Keys(r.mapping, foreign + StoredKeys(r)), keys).mapping, keys)
    && BurnsDropped(Without(r.mapping, keys), r.burned, r'.burned)
  }

  // The names of the attributes of one plugin.
  ghost predicate NamesOf(attributes: seq<PluginAttribute>, plugin: string, keys: seq<string>) {
    |keys| == |attributes| && forall i | 0 <= i < |keys| :: attributes[i] == PluginAttribute(keys[i], plugin)
  }

  lemma {:induction false} AssignFirst(hash: Hash, plugin: string, attributes: seq<PluginAttribute>, keys: seq<string>)
    requires DistinctKeys(attributes) && NamesOf(attributes, plugin, keys)
    ensures var made := PluginMap(hash, attributes);
      Assign(hash, plugin, Keys(map[], {}), keys) == Keys(made.mapping, made.used)
  {
    if keys != [] {
      AssignFirst(hash, plugin, attributes[..|keys| - 1], keys[..|keys| - 1]);
      PluginMapDomain(hash, attributes[..|keys| - 1]);
    }
  }

  /** For the attributes of one plugin that is the first step of the plugin's registry: with
      nothing stored both give the same keys. */
  lemma FirstPluginStep(hash: Hash, plugin: string, attributes: seq<PluginAttribute>, keys: seq<string>,
                        r': PluginRegistry)
    requires DistinctKeys(attributes) && NamesOf(attributes, plugin, keys)
    requires PluginStep(hash, plugin, {}, NO_KEYS, keys, r')
    ensures r'.mapping == PluginMap(hash, attributes).mapping && r'.burned == []
  {
    AssignFirst(hash, plugin, attributes, keys);
    AssignDomain(hash, plugin, Keys(map[], {}), keys);
    assert StoredKeys(NO_KEYS) == {};
    assert {} + StoredKeys(NO_KEYS) == {};
    NothingBurned(Without(NO_KEYS.mapping, keys), NO_KEYS.burned, r'.burned);
  }

  ghost predicate LacksKey(mapping: map<string, string>, keys: seq<string>) {
    exists a :: a in keys && !HasKey(mapping, a)
  }

  lemma KeyKnown(hash: Hash, plugin: string, s: Keys, keys: seq<string>, a: string)
    requires Shaped(hash)
    ensures HasKey(Assign(hash, plugin, s, keys).mapping, a) <==> HasKey(s.mapping, a) || a in keys
  {
    AssignDomain(hash, plugin, s, keys);
    AssignFacts(hash, plugin, s, keys);
    assert a in keys && !HasKey(s.mapping, a) ==> FreshKey(s, Assign(hash, plugin, s, keys), a);
  }

  // A key was assigned or burned for the plugin.
  ghost predicate PluginChanged(r: PluginRegistry, keys: seq<string>, r': PluginRegistry) {
    LacksKey(r.mapping, keys) || r'.burned != r.burned
  }

  ghost predicate FreshKey(s: Keys, s': Keys, a: string) {
    a in s'.mapping && s'.mapping[a] in s'.used && s'.mapping[a] !in s.used && s'.mapping[a] != ""
  }

  lemma {:induction false} AssignDomain(hash: Hash, plugin: string, s: Keys, keys: seq<string>)
    ensures var s' := Assign(hash, plugin, s, keys);
      && s.used <= s'.used
      && (forall a :: a in s'.mapping <==> a in s.mapping || a in keys)
      && (forall a | a in s.mapping && (a !in keys || s.mapping[a] != "") :: s'.mapping[a] == s.mapping[a])
  {
    if keys != [] {
      AssignDomain(hash, plugin, s, keys[..|keys| - 1]);
      assert forall a :: a in keys <==> a in keys[..|keys| - 1] || a == keys[|keys| - 1];
    }
  }

  lemma {:induction false} AssignFacts(hash: Hash, plugin: string, s: Keys, keys: seq<string>)
    requires Shaped(hash)
    ensures var s' := Assign(hash, plugin, s, keys);
      && (forall a | a in keys && !HasKey(s.mapping, a) :: FreshKey(s, s', a))
      && (forall a, b | a in keys && b in keys && !HasKey(s.mapping, a) && !HasKey(s.mapping, b)
          && s'.mapping[a] == s'.mapping[b] :: a == b)
  {
    AssignDomain(hash, plugin, s, keys);
    if keys != [] {
      var front, last := keys[..|keys| - 1], keys[|keys| - 1];
      AssignDomain(hash, plugin, s, front);
      AssignFacts(hash, plugin, s, front);
      assert forall a :: a in keys <==> a in front || a == last;
      var before := Assign(hash, plugin, s, front);
      ProbedNonEmpty(hash(plugin, last), before.used);
    }
  }

  lemma ProbedNonEmpty(h: string, used: set<string>)
    requires IsHash(h)
    ensures Probed(h, used) != ""
  {
  }

  ghost predicate AllPluginKeys(mapping: map<string, string>) {
    forall a | HasKey(mapping, a) :: IsPluginKey(mapping[a])
  }

  lemma {:induction false} AssignShape(hash: Hash, plugin: string, s: Keys, keys: seq<string>)
    requires Shaped(hash) && AllPluginKeys(s.mapping)
    ensures AllPluginKeys(Assign(hash, plugin, s, keys).mapping)
  {
    if keys != [] {
      AssignShape(hash, plugin, s, keys[..|keys| - 1]);
      assert IsHash(hash(plugin, keys[|keys| - 1]));
    }
  }

  ghost predicate IsCandidateOf(h: string, key: string) {
    exists n: nat :: key == Candidate(h, n)
  }

  // The key was assigned to a listed attribute that had none.
  ghost predicate Assigned(s: Keys, s': Keys, keys: seq<string>, key: string) {
    exists a :: a in keys && !HasKey(s.mapping, a) && a in s'.mapping && s'.mapping[a] == key
  }

  // Assigned keys are candidates of their own attribute's hash, and every such hash is used afterwards.
  lemma {:induction false} AssignCandidates(hash: Hash, plugin: string, s: Keys, keys: seq<string>)
    requires Shaped(hash)
    ensures var s' := Assign(hash, plugin, s, keys);
      && (forall a | a in keys && !HasKey(s.mapping, a) ::
          a in s'.mapping && IsCandidateOf(hash(plugin, a), s'.mapping[a]) && hash(plugin, a) in s'.used)
      && (forall key | key in s'.used :: key in s.used || Assigned(s, s', keys, key))
  {
    if keys != [] {
      var front, last := keys[..|keys| - 1], keys[|keys| - 1];
      AssignCandidates(hash, plugin, s, front);
      assert keys == front + [last];
      var before, after := Assign(hash, plugin, s, front), Assign(hash, plugin, s, keys);
      KeyKnown(hash, plugin, s, front, last);
      forall a | a in front
        ensures a in after.mapping && after.mapping[a] == before.mapping[a]
      {
        KeyKnown(hash, plugin, s, front, a);
      }
      ProbedCandidate(hash(plugin, last), before.used);
      forall key | key in after.used
        ensures key in s.used || Assigned(s, after, keys, key)
      {
        if key in before.used && Assigned(s, before, front, key) {
          var a :| a in front && !HasKey(s.mapping, a) && a in before.mapping && before.mapping[a] == key;
          assert a in keys && after.mapping[a] == key;
        } else if key !in before.used {
          assert last in keys && after.mapping[last] == key;
        }
      }
    }
  }

  // The key is in use from the start, or of an attribute listed before the i-th.
  ghost predicate TakenBefore(s: Keys, mapping: map<string, string>, keys: seq<string>, i: nat, t: string) {
    t in s.used || exists a :: a in keys[..if i <= |keys| then i else |keys|] && a in mapping && mapping[a] == t
  }

  lemma UsedIsTaken(hash: Hash, plugin: string, s: Keys, keys: seq<string>, i: nat, t: string)
    requires Shaped(hash) && i < |keys| && t in Assign(hash, plugin, s, keys[..i]).used
    ensures TakenBefore(s, Assign(hash, plugin, s, keys).mapping, keys, i, t)
  {
    AssignCandidates(hash, plugin, s, keys[..i]);
    if t !in s.used {
      var a :| a in keys[..i] && !HasKey(s.mapping, a) && a in Assign(hash, plugin, s, keys[..i]).mapping
          && Assign(hash, plugin, s, keys[..i]).mapping[a] == t;
      KeyKnown(hash, plugin, s, keys[..i], a);
      AssignKeeps(hash, plugin, s, keys, i, a);
    }
  }

  // A key once assigned is not changed by the attributes that follow.
  lemma {:induction false} AssignKeeps(hash: Hash, plugin: string, s: Keys, keys: seq<string>, i: nat, a: string)
    requires Shaped(hash) && i <= |keys| && HasKey(Assign(hash, plugin, s, keys[..i]).mapping, a)
    ensures HasKey(Assign(hash, plugin, s, keys).mapping, a)
    ensures Assign(hash, plugin, s, keys).mapping[a] == Assign(hash, plugin, s, keys[..i]).mapping[a]
    decreases |keys|
  {
    if i < |keys| {
      assert keys[..|keys| - 1][..i] == keys[..i];
      AssignKeeps(hash, plugin, s, keys[..|keys| - 1], i, a);
    } else {
      assert keys[..i] == keys;
    }
  }

  /** With a registry too: an attribute without a stored key gets a candidate of the hash of its own
      plugin and name, and every candidate before it was in use from the start or is the key of an
      attribute listed earlier. */
  lemma AssignedOwnHash(hash: Hash, plugin: string, s: Keys, keys: seq<string>, i: nat)
    requires Shaped(hash) && i < |keys| && keys[i] !in keys[..i] && !HasKey(s.mapping, keys[i])
    ensures var mapping, h := Assign(hash, plugin, s, keys).mapping, hash(plugin, keys[i]);
      && keys[i] in mapping && mapping[keys[i]] !in s.used
      && exists n: nat :: mapping[keys[i]] == Candidate(h, n)
          && forall m: nat | m < n :: TakenBefore(s, mapping, keys, i, Candidate(h, m))
  {
    var before, h := Assign(hash, plugin, s, keys[..i]), hash(plugin, keys[i]);
    var key := Probed(h, before.used);
    var n: nat :| FirstFree(h, before.used, n) && key == Candidate(h, n);
    KeyKnown(hash, plugin, s, keys[..i], keys[i]);
    assert keys[..i + 1][..i] == keys[..i];
    ProbedNonEmpty(h, before.used);
    AssignKeeps(hash, plugin, s, keys, i + 1, keys[i]);
    AssignDomain(hash, plugin, s, keys[..i]);
    forall m: nat | m < n
      ensures TakenBefore(s, Assign(hash, plugin, s, keys).mapping, keys, i, Candidate(h, m))
    {
      UsedIsTaken(hash, plugin, s, keys, i, Candidate(h, m));
    }
  }

  lemma ProbedCandidate(h: string, used: set<string>)
    ensures IsCandidateOf(h, Probed(h, used)) && h in used + {Probed(h, used)}
  {
    var key := Probed(h, used);
    var n: nat :| FirstFree(h, used, n) && key == Candidate(h, n);
    assert n > 0 ==> Candidate(h, 0) in used;
  }

  // The attribute a holds the key, mapped or burned. The empty text is no key.
  ghost predicate Holds(r: PluginRegistry, a: string, key: string) {
    key != "" && ((a in r.mapping && r.mapping[a] == key) || Burned(key, a) in r.burned)
  }

  ghost predicate SingleHolder(r: PluginRegistry) {
    forall a, b, key | Holds(r, a, key) && Holds(r, b, key) :: a == b
  }

  lemma HeldIsStored(r: PluginRegistry, a: string, key: string)
    requires Holds(r, a, key)
    ensures key in StoredKeys(r)
  {
    if a in r.mapping && r.mapping[a] == key {
    } else {
      assert Burned(key, a) in r.burned;
    }
  }

  lemma PluginStepHolders(hash: Hash, plugin: string, foreign: set<string>, r: PluginRegistry, keys: seq<string>,
                          r': PluginRegistry, a: string, key: string)
    requires Shaped(hash) && PluginStep(hash, plugin, foreign, r, keys, r') && Holds(r', a, key)
    ensures Holds(r, a, key)
        || (a in keys && !HasKey(r.mapping, a) && a in r'.mapping && r'.mapping[a] == key && key !in StoredKeys(r))
  {
    var s := Keys(r.mapping, foreign + StoredKeys(r));
    AssignDomain(hash, plugin, s, keys);
    AssignFacts(hash, plugin, s, keys);
    if a in r'.mapping && r'.mapping[a] == key {
      assert !HasKey(r.mapping, a) ==> FreshKey(s, Assign(hash, plugin, s, keys), a);
    } else {
      var k :| 0 <= k < |r'.burned| && r'.burned[k] == Burned(key, a);
      if k < |r.burned| {
        assert r.burned[k] == Burned(key, a);
      }
    }
  }

  lemma PluginStepSingle(hash: Hash, plugin: string, foreign: set<string>, r: PluginRegistry, keys: seq<string>,
                         r': PluginRegistry)
    requires Shaped(hash) && PluginStep(hash, plugin, foreign, r, keys, r') && SingleHolder(r)
    ensures SingleHolder(r')
  {
    forall a, b, key | Holds(r', a, key) && Holds(r', b, key)
      ensures a == b
    {
      PluginStepHolders(hash, plugin, foreign, r, keys, r', a, key);
      PluginStepHolders(hash, plugin, foreign, r, keys, r', b, key);
      if Holds(r, a, key) {
        HeldIsStored(r, a, key);
      } else if Holds(r, b, key) {
        HeldIsStored(r, b, key);
      } else {
        AssignFacts(hash, plugin, Keys(r.mapping, foreign + StoredKeys(r)), keys);
      }
    }
  }

  lemma PluginStepKeeps(hash: Hash, plugin: string, foreign: set<string>, r: PluginRegistry, keys: seq<string>,
                        r': PluginRegistry, a: string, key: string)
    requires PluginStep(hash, plugin, foreign, r, keys, r') && SingleHolder(r) && Holds(r, a, key)
    ensures Holds(r', a, key)
  {
    AssignDomain(hash, plugin, Keys(r.mapping, foreign + StoredKeys(r)), keys);
    if Burned(key, a) in r.burned {
      var k :| 0 <= k < |r.burned| && r.burned[k] == Burned(key, a);
      assert r'.burned[k] == Burned(key, a);
    } else if a !in keys {
      assert IsBurned(r'.burned, Without(r.mapping, keys)[a]);
      var k :| 0 <= k < |r'.burned| && r'.burned[k].index == key;
      var b := r'.burned[k].attribute;
      assert r'.burned[k] == Burned(key, b);
      if k < |r.burned| {
        assert r.burned[k] == Burned(key, b);
      }
      assert Holds(r, b, key);
    }
  }

  /** The change report: without one every listed attribute has the key it had and nothing was burned,
      with one the registry is another. */
  lemma PluginChangeExact(hash: Hash, plugin: string, foreign: set<string>, r: PluginRegistry, keys: seq<string>,
                          r': PluginRegistry)
    requires Shaped(hash) && PluginStep(hash, plugin, foreign, r, keys, r')
    ensures !PluginChanged(r, keys, r') <==>
        && r'.burned == r.burned
        && forall a | a in keys ::
             a in r.mapping && r.mapping[a] != "" && a in r'.mapping && r'.mapping[a] == r.mapping[a]
    ensures PluginChanged(r, keys, r') ==> r' != r
  {
    var s := Keys(r.mapping, foreign + StoredKeys(r));
    AssignDomain(hash, plugin, s, keys);
    if LacksKey(r.mapping, keys) {
      AssignFacts(hash, plugin, s, keys);
      var a :| a in keys && !HasKey(r.mapping, a);
      assert FreshKey(s, Assign(hash, plugin, s, keys), a);
    }
  }

  // A stored registry the code can have left: each key has one holder, and keys are plugin keys.
  ghost predicate WellKept(r: PluginRegistry) {
    SingleHolder(r) && AllPluginKeys(r.mapping)
  }

  lemma FirstAssigned(hash: Hash, plugin: string, a: string)
    ensures Assign(hash, plugin, Keys(map[], {}), [a]) == Keys(map[a := hash(plugin, a)], {hash(plugin, a)})
  {
    var s, h := Keys(map[], {}), hash(plugin, a);
    assert [a][..0] == [];
    assert Assign(hash, plugin, s, []) == s;
    var n: nat :| FirstFree(h, {}, n) && Probed(h, {}) == Candidate(h, n);
    FirstFreeUnique(h, {}, n, 0);
  }

  // Plugin keys and attribute keys share one name space in a stored record.

  const FIRST_SHARED: nat := 25 * 36 * 36 * 36

  /** The base-36 key of an attribute is never a plugin key as long as every index is below
      25 * 36^3, and that is the largest such bound: index 25 * 36^3 is printed "p000". */
  lemma KeySpacesDisjoint(limit: nat)
    ensures (forall i: nat, h, n: nat | i < limit && IsHash(h) :: Print(i, 36) != Candidate(h, n))
        <==> limit <= FIRST_SHARED
  {
    if limit <= FIRST_SHARED {
      forall i: nat, h, n: nat | i < limit && IsHash(h)
        ensures Print(i, 36) != Candidate(h, n)
      {
        if Print(i, 36) == Candidate(h, n) {
          PrintShape(i, 36);
          ValuePrint(i, 36);
          CandidateIsShared(Print(i, 36), h, n);
        }
      }
    } else {
      SharedKey();
      assert Print(FIRST_SHARED, 36) == Candidate("p000", 0);
    }
  }

  lemma SharedKey()
    ensures IsHash("p000") && Print(FIRST_SHARED, 36) == "p000" == Candidate("p000", 0)
  {
    assert "p000"[1..] == "000";
    assert Print(25, 36) == "p";
    assert Print(25 * 36, 36) == "p0";
    assert Print(25 * 36 * 36, 36) == "p00";
  }

  lemma CubeOf36()
    ensures 25 * Pow(36, 3) == FIRST_SHARED
  {
    assert Pow(36, 3) == 46656;
  }

  lemma CandidateIsShared(s: string, h: string, n: nat)
    requires IsHash(h) && IsNumeral(s, 36) && s == Candidate(h, n)
    ensures Value(s, 36) >= FIRST_SHARED
  {
    ValueBounds(s, 36);
    assert s[0] == 'p' && |s| >= 4;
    assert ValueOf(s[0]) == 25;
    PowMono(36, 3, |s| - 1);
    MulLe(Pow(36, 3), Pow(36, |s| - 1), 25);
    CubeOf36();
  }
}
