/** Whole records, as `flatten` lists them: `mapper` turns a document into a stored record and
    `unmapper` turns it back (src/schema.class.ts), nesting dotted keys at the end. */
module Document {
  import opened Options
  import opened Numerals
  import opened Texts
  import opened Fields
  import opened SchemaMap
  import Registry
  import RegistryRuns
  import PluginKeys
  import PluginSchema

  datatype Entry = Entry(key: string, value: FieldValue)

  datatype Schema = Schema(
    kinds: map<string, Kind>,
    keyMap: map<string, string>, reversed: map<string, string>,
    pluginMap: map<string, string>, reversedPlugin: map<string, string>,
    version: string, context: Context)

  ghost predicate IsStoredKey(sc: Schema, t: string) {
    t in sc.reversed || t in sc.reversedPlugin
  }

  // What the constructor guarantees: see BuiltSchema below.
  ghost predicate ValidSchema(sc: Schema) {
    && ValidContext(sc.context)
    && (forall k :: k in sc.kinds <==> k in sc.keyMap || k in sc.pluginMap)
    && (forall k | k in sc.kinds :: k != "")
    && Inverse(sc.keyMap, sc.reversed)
    && Inverse(sc.pluginMap, sc.reversedPlugin)
    && (forall t | t in sc.reversed :: t !in sc.reversedPlugin)
    && (forall t | IsStoredKey(sc, t) :: t != "" && t != "_v" && t[0] != '$')
  }

  // An empty text counts as a missing entry, as `||` has it.
  function Lookup(m: map<string, string>, k: string): string {
    if k in m then m[k] else ""
  }

  function MappedKey(sc: Schema, k: string): string {
    if Lookup(sc.pluginMap, k) != "" then Lookup(sc.pluginMap, k)
    else if Lookup(sc.keyMap, k) != "" then Lookup(sc.keyMap, k)
    else k
  }

  function OriginalKey(sc: Schema, t: string): string {
    if Lookup(sc.reversedPlugin, t) != "" then Lookup(sc.reversedPlugin, t)
    else if Lookup(sc.reversed, t) != "" then Lookup(sc.reversed, t)
    else t
  }

  function KindOf(sc: Schema, k: string): Kind {
    if k in sc.kinds then sc.kinds[k] else Plain
  }

  // rest[key] = value for each entry, in order.
  function Write(rest: map<string, FieldValue>, es: seq<Entry>): map<string, FieldValue> {
    if es == [] then rest
    else Write(rest, es[..|es| - 1])[es[|es| - 1].key := es[|es| - 1].value]
  }

  ghost predicate HasKey(es: seq<Entry>, t: string) {
    exists e :: e in es && e.key == t
  }

  lemma SnocMembers(es: seq<Entry>)
    requires es != []
    ensures forall e :: e in es <==> e in es[..|es| - 1] || e == es[|es| - 1]
  {
    assert es == es[..|es| - 1] + [es[|es| - 1]];
  }

  // What the writes leave at one key.
  lemma {:induction false} WriteAt(rest: map<string, FieldValue>, es: seq<Entry>, t: string)
    ensures t in Write(rest, es) <==> t in rest || HasKey(es, t)
    ensures HasKey(es, t) ==> Entry(t, Write(rest, es)[t]) in es
    ensures !HasKey(es, t) && t in rest ==> Write(rest, es)[t] == rest[t]
  {
    if es != [] {
      WriteAt(rest, es[..|es| - 1], t);
      SnocMembers(es);
    }
  }

  ghost predicate DistinctEntries(es: seq<Entry>) {
    forall i, j | 0 <= i < j < |es| :: es[i].key != es[j].key
  }

  ghost predicate ValidDocument(sc: Schema, d: seq<Entry>) {
    DistinctEntries(d) && AllValidated(sc, d)
  }

  // The mapper. `flatten` turns the empty document into one empty object under the empty key.

  function StoredEntry(sc: Schema, e: Entry): Entry
    requires Validated(KindOf(sc, e.key), e.value)
  {
    Entry(MappedKey(sc, e.key), Store(sc.context, KindOf(sc, e.key), e.value))
  }

  ghost predicate AllValidated(sc: Schema, d: seq<Entry>) {
    forall e | e in d :: Validated(KindOf(sc, e.key), e.value)
  }

  function StoredEntries(sc: Schema, d: seq<Entry>): (es: seq<Entry>)
    requires AllValidated(sc, d)
    ensures |es| == |d|
  {
    if d == [] then [] else StoredEntries(sc, d[..|d| - 1]) + [StoredEntry(sc, d[|d| - 1])]
  }

  function Stored(sc: Schema, d: seq<Entry>): map<string, FieldValue>
    requires AllValidated(sc, d)
  {
    var rest := map["_v" := Str(sc.version)];
    if d == [] then rest[MappedKey(sc, "") := Str("{}")] else Write(rest, StoredEntries(sc, d))
  }

  // No key of the document is mapped to the version key.
  ghost predicate LeavesVersion(sc: Schema, d: seq<Entry>) {
    (forall e | e in d :: MappedKey(sc, e.key) != "_v") && (d == [] ==> MappedKey(sc, "") != "_v")
  }

  lemma VersionKept(sc: Schema, d: seq<Entry>)
    requires AllValidated(sc, d)
    ensures LeavesVersion(sc, d) ==> "_v" in Stored(sc, d) && Stored(sc, d)["_v"] == Str(sc.version)
  {
    if d != [] && LeavesVersion(sc, d) {
      forall e | e in StoredEntries(sc, d)
        ensures e.key != "_v"
      {
        StoredFacts(sc, d, e);
      }
      WriteAt(map["_v" := Str(sc.version)], StoredEntries(sc, d), "_v");
    }
  }

  lemma NextStored(sc: Schema, rest: map<string, FieldValue>, d: seq<Entry>, i: nat)
    requires i < |d| && AllValidated(sc, d)
    ensures Write(rest, StoredEntries(sc, d[..i + 1])) == Write(rest, StoredEntries(sc, d[..i]))
        [MappedKey(sc, d[i].key) := Store(sc.context, KindOf(sc, d[i].key), d[i].value)]
  {
    assert d[..i + 1][..i] == d[..i];
    var before := StoredEntries(sc, d[..i]);
    assert (before + [StoredEntry(sc, d[i])])[..|before|] == before;
  }

  method Mapper(sc: Schema, d: seq<Entry>) returns (rest: map<string, FieldValue>)
    requires AllValidated(sc, d)
    ensures rest == Stored(sc, d)
    ensures LeavesVersion(sc, d) ==> "_v" in rest && rest["_v"] == Str(sc.version)
  {
    VersionKept(sc, d);
    rest := map["_v" := Str(sc.version)];
    if d == [] {
      rest := rest[MappedKey(sc, "") := Str("{}")];
      return;
    }
    for i := 0 to |d|
      invariant rest == Write(map["_v" := Str(sc.version)], StoredEntries(sc, d[..i]))
    {
      NextStored(sc, map["_v" := Str(sc.version)], d, i);
      rest := rest[MappedKey(sc, d[i].key) := Store(sc.context, KindOf(sc, d[i].key), d[i].value)];
    }
    assert d[..|d|] == d;
  }

  // The unmapper, over the stored record's entries in any order.

  function LoadedEntry(sc: Schema, e: Entry): Entry {
    Entry(OriginalKey(sc, e.key), Load(sc.context, KindOf(sc, OriginalKey(sc, e.key)), e.value))
  }

  function LoadedEntries(sc: Schema, es: seq<Entry>): seq<Entry> {
    if es == [] then []
    else
      var last := es[|es| - 1];
      LoadedEntries(sc, es[..|es| - 1]) + (if last.key == "_v" then [] else [LoadedEntry(sc, last)])
  }

  predicate IsDollar(t: string) {
    t != "" && t[0] == '$'
  }

  // Keys that start with '$' are copied over raw at the end.
  function DollarEntries(es: seq<Entry>): seq<Entry> {
    if es == [] then []
    else
      var last := es[|es| - 1];
      DollarEntries(es[..|es| - 1]) + (if IsDollar(last.key) then [last] else [])
  }

  // The record read back, before dotted keys are nested.
  function Loaded(sc: Schema, es: seq<Entry>): map<string, FieldValue> {
    Write(map[], LoadedEntries(sc, es))
  }

  // The same with the dollar keys copied over: the result, as long as no key has a dot.
  function Unmapped(sc: Schema, es: seq<Entry>): map<string, FieldValue> {
    Write(Loaded(sc, es), DollarEntries(es))
  }

  // Nesting (`unflatten` in src/concerns/flatten.ts).

  datatype Node = Leaf(value: FieldValue) | Inner(isArray: bool, fields: map<string, Node>)

  // What writing at a path below an array or a parsed JSON value leaves. Any function will do.
  type Extend = (FieldValue, seq<string>, FieldValue) -> Option<Node>

  predicate Truthy(v: FieldValue) {
    match v
    case Str(s) => s != ""
    case Num(n) => n != 0
    case Bool(b) => b
    case Null => false
    case Undefined => false
    case _ => true
  }

  // /^\d+$/: the container made for such a name is an array.
  predicate IsIndex(name: string) {
    name != "" && IsNumeral(name, 10)
  }

  // None: a property is written on a string, number or truth value, which throws.
  function Put(ext: Extend, fields: map<string, Node>, path: seq<string>, v: FieldValue): Option<map<string, Node>>
    requires path != []
    decreases |path|
  {
    var name := path[0];
    if |path| == 1 then Some(fields[name := Leaf(v)])
    else
      var child := if name in fields
          && (fields[name].Leaf? ==> Truthy(fields[name].value)) then fields[name] else Inner(IsIndex(path[1]), map[]);
      match child
      case Inner(isArray, below) =>
        (match Put(ext, below, path[1..], v)
         case Some(below') => Some(fields[name := Inner(isArray, below')])
         case None => None)
      case Leaf(u) =>
        if u.Strs? || u.Nums? || u.Json? then
          (match ext(u, path[1..], v) case Some(node) => Some(fields[name := node]) case None => None)
        else None
  }

  function Unflattened(ext: Extend, ls: seq<Entry>): Option<map<string, Node>> {
    if ls == [] then Some(map[])
    else
      match Unflattened(ext, ls[..|ls| - 1])
      case Some(fields) => Put(ext, fields, Split(ls[|ls| - 1].key, '.'), ls[|ls| - 1].value)
      case None => None
  }

  function AsLeaves(m: map<string, FieldValue>): map<string, Node> {
    map t | t in m :: Leaf(m[t])
  }

  // The dollar keys are copied onto the nested result, not nested themselves.
  function Result(sc: Schema, ext: Extend, es: seq<Entry>, ls: seq<Entry>): Option<map<string, Node>> {
    match Unflattened(ext, ls)
    case Some(fields) => Some(fields + AsLeaves(Write(map[], DollarEntries(es))))
    case None => None
  }

  lemma LoadedSnoc(sc: Schema, es: seq<Entry>, e: Entry)
    ensures Write(map[], LoadedEntries(sc, es + [e])) ==
              if e.key == "_v" then Write(map[], LoadedEntries(sc, es))
              else Write(map[], LoadedEntries(sc, es))[LoadedEntry(sc, e).key := LoadedEntry(sc, e).value]
  {
    var before := LoadedEntries(sc, es);
    assert (es + [e])[..|es|] == es;
    assert before + [] == before;
    assert (before + [LoadedEntry(sc, e)])[..|before|] == before;
  }

  lemma DollarSnoc(rest: map<string, FieldValue>, es: seq<Entry>, e: Entry)
    ensures Write(rest, DollarEntries(es + [e])) ==
              if IsDollar(e.key) then Write(rest, DollarEntries(es))[e.key := e.value]
                  else Write(rest, DollarEntries(es))
  {
    var before := DollarEntries(es);
    assert (es + [e])[..|es|] == es;
    assert before + [] == before;
    assert (before + [e])[..|before|] == before;
  }

  // The main loop.
  method LoadAll(sc: Schema, es: seq<Entry>) returns (rest: map<string, FieldValue>)
    ensures rest == Write(map[], LoadedEntries(sc, es))
  {
    rest := map[];
    for i := 0 to |es|
      invariant rest == Write(map[], LoadedEntries(sc, es[..i]))
    {
      assert es[..i + 1] == es[..i] + [es[i]];
      LoadedSnoc(sc, es[..i], es[i]);
      if es[i].key != "_v" {
        var originalKey := OriginalKey(sc, es[i].key);
        rest := rest[originalKey := Load(sc.context, KindOf(sc, originalKey), es[i].value)];
      }
    }
    assert es[..|es|] == es;
  }

  // Some order of the entries nests to the outcome.
  ghost predicate Nests(ext: Extend, rest: map<string, FieldValue>, outcome: Option<map<string, Node>>) {
    exists ls :: Lists(ls, rest) && outcome == Unflattened(ext, ls)
  }

  // Some order of the entries read gives the outcome.
  ghost predicate ReadsAs(sc: Schema, ext: Extend, es: seq<Entry>, outcome: Option<map<string, Node>>) {
    exists ls :: Lists(ls, Loaded(sc, es)) && outcome == Result(sc, ext, es, ls)
  }

  // What has thrown has thrown, whatever entries were still to come.
  lemma {:induction false} ThrownListing(ext: Extend, rest: map<string, FieldValue>, ls: seq<Entry>,
                                         pending: set<string>)
    requires Unflattened(ext, ls) == None && pending <= rest.Keys
    requires forall e | e in ls :: e.key in rest && rest[e.key] == e.value
    requires forall t | t in rest && t !in pending :: Entry(t, rest[t]) in ls
    ensures Nests(ext, rest, None)
    decreases pending
  {
    if pending == {} {
      assert Lists(ls, rest);
    } else {
      var t :| t in pending;
      assert (ls + [Entry(t, rest[t])])[..|ls|] == ls;
      ThrownListing(ext, rest, ls + [Entry(t, rest[t])], pending - {t});
    }
  }

  // Over the entries of a record, in any order.
  method Unflatten(ext: Extend, rest: map<string, FieldValue>) returns (result: Option<map<string, Node>>)
    ensures Nests(ext, rest, result)
  {
    var fields: map<string, Node> := map[];
    ghost var ls: seq<Entry> := [];
    var pending := rest.Keys;
    while pending != {}
      invariant pending <= rest.Keys
      invariant forall e | e in ls :: e.key in rest && rest[e.key] == e.value
      invariant forall t | t in rest && t !in pending :: Entry(t, rest[t]) in ls
      invariant Unflattened(ext, ls) == Some(fields)
      decreases |pending|
    {
      var t :| t in pending;
      pending := pending - {t};
      assert (ls + [Entry(t, rest[t])])[..|ls|] == ls;
      ls := ls + [Entry(t, rest[t])];
      var written := Put(ext, fields, Split(t, '.'), rest[t]);
      if written.None? {
        ThrownListing(ext, rest, ls, pending);
        return None;
      }
      fields := written.value;
    }
    assert Lists(ls, rest);
    result := Some(fields);
  }

  lemma NextDollar(nested: map<string, Node>, es: seq<Entry>, i: nat)
    requires i < |es|
    ensures nested + AsLeaves(Write(map[], DollarEntries(es[..i + 1]))) ==
              if IsDollar(es[i].key)
                  then (nested + AsLeaves(Write(map[], DollarEntries(es[..i]))))[es[i].key := Leaf(es[i].value)]
              else nested + AsLeaves(Write(map[], DollarEntries(es[..i])))
  {
    assert es[..i + 1] == es[..i] + [es[i]];
    DollarSnoc(map[], es[..i], es[i]);
    LeafPut(nested, Write(map[], DollarEntries(es[..i])), es[i].key, es[i].value);
  }

  lemma LeafPut(nested: map<string, Node>, m: map<string, FieldValue>, key: string, v: FieldValue)
    ensures nested + AsLeaves(m[key := v]) == (nested + AsLeaves(m))[key := Leaf(v)]
  {
  }

  // The last loop: dollar keys are copied onto the result raw.
  method CopyDollars(nested: map<string, Node>, es: seq<Entry>) returns (fields: map<string, Node>)
    ensures fields == nested + AsLeaves(Write(map[], DollarEntries(es)))
  {
    fields := nested;
    for i := 0 to |es|
      invariant fields == nested + AsLeaves(Write(map[], DollarEntries(es[..i])))
    {
      NextDollar(nested, es, i);
      if IsDollar(es[i].key) {
        fields := fields[es[i].key := Leaf(es[i].value)];
      }
    }
    assert es[..|es|] == es;
  }

  method Unmapper(sc: Schema, ext: Extend, es: seq<Entry>) returns (result: Option<map<string, Node>>)
    ensures ReadsAs(sc, ext, es, result)
  {
    var rest := LoadAll(sc, es);
    var nested := Unflatten(ext, rest);
    ghost var ls :| Lists(ls, rest) && nested == Unflattened(ext, ls);
    if nested.None? {
      assert Result(sc, ext, es, ls) == None;
      return None;
    }
    var fields := CopyDollars(nested.value, es);
    result := Some(fields);
    assert result == Result(sc, ext, es, ls);
  }

  /** A key nested below a value: the value gives way if it is falsy, an array or JSON is written
      into, and any other value makes the write throw. */
  lemma WriteBelow(ext: Extend, name: string, below: string, u: FieldValue, v: FieldValue)
    ensures var nested := Put(ext, map[name := Leaf(u)], [name, below], v);
      match u
      case Str(s) => if s == "" then GivesWay(nested, name, below, v) else nested == None
      case Num(n) => if n == 0 then GivesWay(nested, name, below, v) else nested == None
      case Bool(b) => if !b then GivesWay(nested, name, below, v) else nested == None
      case Null => GivesWay(nested, name, below, v)
      case Undefined => GivesWay(nested, name, below, v)
      case _ => if ext(u, [below], v).None? then nested == None
                else nested == Some(map[name := ext(u, [below], v).value])
  {
    var path := [name, below];
    assert path[1..] == [below] && [below][1..] == [];
    Overwritten(name, Leaf(u), Inner(IsIndex(below), map[below := Leaf(v)]));
    if ext(u, [below], v).Some? {
      Overwritten(name, Leaf(u), ext(u, [below], v).value);
    }
    assert Put(ext, map[], [below], v) == Some(map[below := Leaf(v)]);
  }

  lemma Overwritten(name: string, before: Node, after: Node)
    ensures map[name := before][name := after] == map[name := after]
  {
  }

  // An object, or an array for a name of digits, stands there instead.
  ghost predicate GivesWay(nested: Option<map<string, Node>>, name: string, below: string, v: FieldValue) {
    nested == Some(map[name := Inner(below != "" && forall i | 0 <= i < |below| :: '0' <= below[i] <= '9',
                                     map[below := Leaf(v)])])
  }

  // What nesting leaves at the top.

  lemma PutTop(ext: Extend, fields: map<string, Node>, path: seq<string>, v: FieldValue)
    requires path != [] && Put(ext, fields, path, v).Some?
    ensures var after := Put(ext, fields, path, v).value;
      && after.Keys == fields.Keys + {path[0]}
      && (forall t | t in fields && t != path[0] :: after[t] == fields[t])
      && (|path| == 1 ==> after[path[0]] == Leaf(v))
      && (|path| > 1 && (path[0] in fields ==> fields[path[0]].Inner?) ==> after[path[0]].Inner?)
  {
  }

  // No name at the top has a dot, and one that is no key of the record stands for a nested object.
  lemma {:induction false} UnflattenedTop(ext: Extend, ls: seq<Entry>, t: string)
    requires Unflattened(ext, ls).Some? && t in Unflattened(ext, ls).value
    ensures '.' !in t
    ensures Unflattened(ext, ls).value[t].Leaf? ==> HasKey(ls, t)
  {
    var front, last := ls[..|ls| - 1], ls[|ls| - 1];
    var path := Split(last.key, '.');
    SnocMembers(ls);
    PutTop(ext, Unflattened(ext, front).value, path, last.value);
    JoinSplit(last.key, '.');
    if t in Unflattened(ext, front).value {
      UnflattenedTop(ext, front, t);
    }
  }

  // Without dots nesting changes nothing.
  lemma {:induction false} UnflattenedFlat(ext: Extend, ls: seq<Entry>)
    requires forall e | e in ls :: '.' !in e.key
    ensures Unflattened(ext, ls) == Some(AsLeaves(Write(map[], ls)))
  {
    if ls != [] {
      var front, last := ls[..|ls| - 1], ls[|ls| - 1];
      SnocMembers(ls);
      UnflattenedFlat(ext, front);
      SplitFirst(last.key, "", '.');
      assert Put(ext, AsLeaves(Write(map[], front)), [last.key], last.value)
          == Some(AsLeaves(Write(map[], front))[last.key := Leaf(last.value)]);
      assert AsLeaves(Write(map[], ls)) == AsLeaves(Write(map[], front))[last.key := Leaf(last.value)];
    } else {
      assert AsLeaves(map[]) == map[];
    }
  }

  lemma WriteListed(rest: map<string, FieldValue>, ls: seq<Entry>)
    requires Lists(ls, rest)
    ensures Write(map[], ls) == rest
  {
    forall t
      ensures t in Write(map[], ls) <==> t in rest
      ensures t in rest ==> Write(map[], ls)[t] == rest[t]
    {
      WriteAt(map[], ls, t);
      if t in rest {
        assert Entry(t, rest[t]) in ls;
      }
    }
  }

  lemma WriteOver(rest: map<string, FieldValue>, es: seq<Entry>)
    ensures Write(rest, es) == rest + Write(map[], es)
  {
    forall t
      ensures t in Write(rest, es) <==> t in rest + Write(map[], es)
      ensures t in Write(rest, es) ==> Write(rest, es)[t] == (rest + Write(map[], es))[t]
    {
      WriteBoth(rest, es, t);
      WriteAt(map[], es, t);
    }
  }

  lemma {:induction false} WriteBoth(rest: map<string, FieldValue>, es: seq<Entry>, t: string)
    ensures t in Write(rest, es) <==> t in rest || t in Write(map[], es)
    ensures t in Write(map[], es) ==> Write(rest, es)[t] == Write(map[], es)[t]
    ensures t in rest && t !in Write(map[], es) ==> Write(rest, es)[t] == rest[t]
  {
    if es != [] {
      WriteBoth(rest, es[..|es| - 1], t);
    }
  }

  /** As long as no key that was read has a dot, the result is the flat record itself. */
  lemma FlatResult(sc: Schema, ext: Extend, es: seq<Entry>, ls: seq<Entry>)
    requires Lists(ls, Loaded(sc, es)) && forall t | t in Loaded(sc, es) :: '.' !in t
    ensures Result(sc, ext, es, ls) == Some(AsLeaves(Unmapped(sc, es)))
  {
    forall e | e in ls
      ensures '.' !in e.key
    {
      assert e == Entry(e.key, e.value);
    }
    UnflattenedFlat(ext, ls);
    WriteListed(Loaded(sc, es), ls);
    WriteOver(Loaded(sc, es), DollarEntries(es));
    LeavesOver(Loaded(sc, es), Write(map[], DollarEntries(es)));
  }

  lemma LeavesOver(below: map<string, FieldValue>, above: map<string, FieldValue>)
    ensures AsLeaves(below + above) == AsLeaves(below) + AsLeaves(above)
  {
  }

  // es lists exactly the entries of m.
  ghost predicate Lists(es: seq<Entry>, m: map<string, FieldValue>) {
    forall t, v :: Entry(t, v) in es <==> t in m && m[t] == v
  }

  lemma {:induction false} LoadedFacts(sc: Schema, es: seq<Entry>, e: Entry)
    ensures e in LoadedEntries(sc, es) <==> exists x :: x in es && x.key != "_v" && e == LoadedEntry(sc, x)
  {
    if es != [] {
      LoadedFacts(sc, es[..|es| - 1], e);
      SnocMembers(es);
    }
  }

  lemma {:induction false} DollarFacts(es: seq<Entry>, e: Entry)
    ensures e in DollarEntries(es) <==> e in es && IsDollar(e.key)
  {
    if es != [] {
      DollarFacts(es[..|es| - 1], e);
      SnocMembers(es);
    }
  }

  lemma {:induction false} StoredFacts(sc: Schema, d: seq<Entry>, e: Entry)
    requires AllValidated(sc, d)
    ensures e in StoredEntries(sc, d) <==> exists x :: x in d && e == StoredEntry(sc, x)
  {
    if d != [] {
      StoredFacts(sc, d[..|d| - 1], e);
      SnocMembers(d);
    }
  }

  // Keys.

  predicate Declared(sc: Schema, k: string) {
    k in sc.kinds
  }

  // An undeclared key that no stored attribute answers to, and that is not the version key.
  ghost predicate KeyOk(sc: Schema, k: string) {
    Declared(sc, k) || (!IsStoredKey(sc, k) && k != "_v")
  }

  lemma DeclaredKeys(sc: Schema, k: string)
    requires ValidSchema(sc) && Declared(sc, k)
    ensures IsStoredKey(sc, MappedKey(sc, k)) && OriginalKey(sc, MappedKey(sc, k)) == k
  {
    if k in sc.pluginMap {
      assert sc.pluginMap[k] in sc.reversedPlugin && sc.reversedPlugin[sc.pluginMap[k]] == k;
      assert IsStoredKey(sc, sc.pluginMap[k]);
    } else {
      assert sc.keyMap[k] in sc.reversed && sc.reversed[sc.keyMap[k]] == k;
      assert IsStoredKey(sc, sc.keyMap[k]);
    }
  }

  lemma UndeclaredKeys(sc: Schema, k: string)
    requires ValidSchema(sc) && !Declared(sc, k)
    ensures MappedKey(sc, k) == k
    ensures if IsStoredKey(sc, k) then Declared(sc, OriginalKey(sc, k)) else OriginalKey(sc, k) == k
  {
  }

  // Where a stored key came from decides where it goes.
  lemma KeyComesBack(sc: Schema, k: string)
    requires ValidSchema(sc)
    ensures KeyOk(sc, k) ==> OriginalKey(sc, MappedKey(sc, k)) == k && MappedKey(sc, k) != "_v"
    ensures !KeyOk(sc, k) && MappedKey(sc, k) != "_v" ==> Declared(sc, OriginalKey(sc, MappedKey(sc, k)))
    ensures IsDollar(MappedKey(sc, k)) <==> IsDollar(k) && !Declared(sc, k)
  {
    if Declared(sc, k) {
      DeclaredKeys(sc, k);
    } else {
      UndeclaredKeys(sc, k);
    }
  }

  // Every stored entry but the version comes from a document entry.
  lemma StoredSource(sc: Schema, d: seq<Entry>, t: string)
    requires AllValidated(sc, d) && d != [] && t in Stored(sc, d) && t != "_v"
    ensures exists x :: x in d && StoredEntry(sc, x) == Entry(t, Stored(sc, d)[t])
  {
    WriteAt(map["_v" := Str(sc.version)], StoredEntries(sc, d), t);
    StoredFacts(sc, d, Entry(t, Stored(sc, d)[t]));
  }

  // With good keys, each document entry is stored under its own key.
  lemma StoredAt(sc: Schema, d: seq<Entry>, x: Entry)
    requires ValidSchema(sc) && ValidDocument(sc, d) && x in d
    requires forall y | y in d :: KeyOk(sc, y.key)
    ensures MappedKey(sc, x.key) in Stored(sc, d)
    ensures Stored(sc, d)[MappedKey(sc, x.key)] == StoredEntry(sc, x).value
  {
    var t := MappedKey(sc, x.key);
    StoredFacts(sc, d, StoredEntry(sc, x));
    WriteAt(map["_v" := Str(sc.version)], StoredEntries(sc, d), t);
    KeyComesBack(sc, x.key);
    StoredSource(sc, d, t);
    var y :| y in d && StoredEntry(sc, y) == Entry(t, Stored(sc, d)[t]);
    KeyComesBack(sc, y.key);
    SameEntry(d, x, y);
  }

  // The key for a name: the plugin key or the attribute key if it has one, else the name itself.
  ghost predicate IsKeyFor(sc: Schema, name: string, t: string) {
    if name in sc.pluginMap then t == sc.pluginMap[name]
    else if name in sc.keyMap then t == sc.keyMap[name]
    else t == name
  }

  lemma KeyForMapped(sc: Schema, name: string, t: string)
    requires ValidSchema(sc)
    ensures IsKeyFor(sc, name, t) <==> t == MappedKey(sc, name)
  {
    if name in sc.pluginMap {
      assert IsStoredKey(sc, sc.pluginMap[name]);
    } else if name in sc.keyMap {
      assert IsStoredKey(sc, sc.keyMap[name]);
    }
  }

  /** With good keys the stored record is exactly this: the schema's version under the version
      key, and under the key for each name of the document its value, encoded for its kind; the
      empty document as one empty object under the empty key. */
  lemma StoredRecord(sc: Schema, d: seq<Entry>, t: string)
    requires ValidSchema(sc) && ValidDocument(sc, d) && forall x | x in d :: KeyOk(sc, x.key)
    ensures "_v" in Stored(sc, d) && Stored(sc, d)["_v"] == Str(sc.version)
    ensures t in Stored(sc, d)
        <==> t == "_v" || (d == [] && t == "") || exists x :: x in d && IsKeyFor(sc, x.key, t)
    ensures d == [] ==> "" in Stored(sc, d) && Stored(sc, d)[""] == Str("{}")
    ensures forall x | x in d && IsKeyFor(sc, x.key, t) ::
              t in Stored(sc, d) && Stored(sc, d)[t] == Store(sc.context, KindOf(sc, x.key), x.value)
  {
    KeyComesBack(sc, "");
    assert !Declared(sc, "") && !IsStoredKey(sc, "");
    UndeclaredKeys(sc, "");
    forall x | x in d
      ensures MappedKey(sc, x.key) != "_v" && (IsKeyFor(sc, x.key, t) <==> t == MappedKey(sc, x.key))
    {
      KeyComesBack(sc, x.key);
      KeyForMapped(sc, x.key, t);
    }
    VersionKept(sc, d);
    if d != [] && t in Stored(sc, d) && t != "_v" {
      StoredSource(sc, d, t);
    }
    forall x | x in d && IsKeyFor(sc, x.key, t)
      ensures t in Stored(sc, d) && Stored(sc, d)[t] == Store(sc.context, KindOf(sc, x.key), x.value)
    {
      StoredAt(sc, d, x);
    }
  }

  lemma SameEntry(d: seq<Entry>, x: Entry, y: Entry)
    requires DistinctEntries(d) && x in d && y in d && x.key == y.key
    ensures x == y
  {
  }

  // What the unmapper leaves under a key, when all keys are good.
  lemma ResultAt(sc: Schema, d: seq<Entry>, es: seq<Entry>, x: Entry)
    requires ValidSchema(sc) && ValidDocument(sc, d) && Lists(es, Stored(sc, d)) && x in d
    requires forall y | y in d :: KeyOk(sc, y.key)
    ensures x.key in Unmapped(sc, es)
    ensures Unmapped(sc, es)[x.key] == Returned(sc, x)
  {
    var t, k := MappedKey(sc, x.key), x.key;
    var stored := Entry(t, StoredEntry(sc, x).value);
    StoredAt(sc, d, x);
    assert stored in es;
    KeyComesBack(sc, k);
    var rest := Write(map[], LoadedEntries(sc, es));
    WriteAt(map[], LoadedEntries(sc, es), k);
    LoadedFacts(sc, es, LoadedEntry(sc, stored));
    assert LoadedEntry(sc, stored).key == k;
    LoadedFacts(sc, es, Entry(k, rest[k]));
    var z :| z in es && z.key != "_v" && Entry(k, rest[k]) == LoadedEntry(sc, z);
    OnlySource(sc, d, es, x, z);
    WriteAt(rest, DollarEntries(es), k);
    DollarFacts(es, Entry(k, Unmapped(sc, es)[k]));
    DollarFacts(es, stored);
    if HasKey(DollarEntries(es), k) {
      assert Stored(sc, d)[k] == Unmapped(sc, es)[k];
      DollarIsUndeclared(sc, d, k);
    }
  }

  // The value a document entry comes back with.
  function Returned(sc: Schema, x: Entry): FieldValue
    requires Validated(KindOf(sc, x.key), x.value)
  {
    if IsDollar(x.key) && !Declared(sc, x.key) then StoredEntry(sc, x).value
    else Load(sc.context, KindOf(sc, x.key), StoredEntry(sc, x).value)
  }

  lemma OnlySource(sc: Schema, d: seq<Entry>, es: seq<Entry>, x: Entry, z: Entry)
    requires ValidSchema(sc) && ValidDocument(sc, d) && Lists(es, Stored(sc, d)) && x in d && z in es && z.key != "_v"
    requires forall y | y in d :: KeyOk(sc, y.key)
    requires OriginalKey(sc, z.key) == x.key
    ensures z == StoredEntry(sc, x)
  {
    assert z == Entry(z.key, z.value);
    StoredSource(sc, d, z.key);
    var y :| y in d && StoredEntry(sc, y) == Entry(z.key, Stored(sc, d)[z.key]);
    KeyComesBack(sc, y.key);
    SameEntry(d, x, y);
  }

  lemma DollarIsUndeclared(sc: Schema, d: seq<Entry>, k: string)
    requires ValidSchema(sc) && ValidDocument(sc, d) && d != [] && IsDollar(k) && k in Stored(sc, d)
    requires forall y | y in d :: KeyOk(sc, y.key)
    ensures !Declared(sc, k) && MappedKey(sc, k) == k
  {
    StoredSource(sc, d, k);
    var y :| y in d && StoredEntry(sc, y) == Entry(k, Stored(sc, d)[k]);
    KeyComesBack(sc, y.key);
    UndeclaredKeys(sc, y.key);
  }

  // A key that is not good is not in the result.
  lemma BadKeyLost(sc: Schema, d: seq<Entry>, es: seq<Entry>, k: string)
    requires ValidSchema(sc) && AllValidated(sc, d) && d != [] && Lists(es, Stored(sc, d)) && !KeyOk(sc, k)
    ensures k !in Unmapped(sc, es)
  {
    var rest := Write(map[], LoadedEntries(sc, es));
    WriteAt(map[], LoadedEntries(sc, es), k);
    WriteAt(rest, DollarEntries(es), k);
    if k in rest {
      LoadedFacts(sc, es, Entry(k, rest[k]));
      var z :| z in es && z.key != "_v" && Entry(k, rest[k]) == LoadedEntry(sc, z);
      assert z == Entry(z.key, z.value);
      StoredSource(sc, d, z.key);
      var y :| y in d && StoredEntry(sc, y) == Entry(z.key, Stored(sc, d)[z.key]);
      KeyComesBack(sc, y.key);
    }
    if HasKey(DollarEntries(es), k) {
      DollarFacts(es, Entry(k, Unmapped(sc, es)[k]));
    }
  }

  // Only keys of the document come back.
  lemma NoOtherKeys(sc: Schema, d: seq<Entry>, es: seq<Entry>, k: string)
    requires ValidSchema(sc) && ValidDocument(sc, d) && d != [] && Lists(es, Stored(sc, d)) && k in Unmapped(sc, es)
    requires forall y | y in d :: KeyOk(sc, y.key)
    ensures HasKey(d, k)
  {
    var rest := Write(map[], LoadedEntries(sc, es));
    WriteAt(map[], LoadedEntries(sc, es), k);
    WriteAt(rest, DollarEntries(es), k);
    var t: string;
    if k in rest {
      LoadedFacts(sc, es, Entry(k, rest[k]));
      var z :| z in es && z.key != "_v" && Entry(k, rest[k]) == LoadedEntry(sc, z);
      assert z == Entry(z.key, z.value);
      t := z.key;
    } else {
      DollarFacts(es, Entry(k, Unmapped(sc, es)[k]));
      t := k;
    }
    StoredSource(sc, d, t);
    var y :| y in d && StoredEntry(sc, y) == Entry(t, Stored(sc, d)[t]);
    KeyComesBack(sc, y.key);
    if k !in rest {
      DollarIsUndeclared(sc, d, k);
    }
  }

  // The whole theorem.

  // The result is d, every value in canonical form and no key more or less.
  ghost predicate ComesBack(sc: Schema, d: seq<Entry>, result: Option<map<string, Node>>)
    requires AllValidated(sc, d)
  {
    && result.Some?
    && (forall k :: k in result.value <==> HasKey(d, k))
    && (forall x | x in d :: result.value[x.key] == Leaf(Fields.Canonical(KindOf(sc, x.key), x.value)))
  }

  ghost predicate ValueOk(sc: Schema, x: Entry)
    requires Validated(KindOf(sc, x.key), x.value)
  {
    if IsDollar(x.key) && !Declared(sc, x.key) then x.value != Str("[object Object]")
    else InDomain(sc.context, KindOf(sc, x.key), x.value)
  }

  lemma ValueRoundTrip(sc: Schema, x: Entry)
    requires ValidSchema(sc) && Validated(KindOf(sc, x.key), x.value)
    ensures Returned(sc, x) == Fields.Canonical(KindOf(sc, x.key), x.value) <==> ValueOk(sc, x)
  {
    FieldRoundTrip(sc.context, KindOf(sc, x.key), x.value);
  }

  // The entries of d that are copied over raw: dollar keys no attribute bears.
  predicate IsRaw(sc: Schema, k: string) {
    IsDollar(k) && !Declared(sc, k)
  }

  // The name at the top under which a key is nested.
  function Top(k: string): string {
    Split(k, '.')[0]
  }

  // A dotted key does no harm only if it is copied raw and what it is nested under is overwritten too.
  ghost predicate DotsOk(sc: Schema, d: seq<Entry>) {
    forall x | x in d && '.' in x.key :: IsRaw(sc, x.key) && HasKey(d, Top(x.key))
  }

  // No declared attribute stands above a dotted raw key.
  ghost predicate RawApart(sc: Schema, d: seq<Entry>) {
    forall x | x in d && '.' in x.key && IsRaw(sc, x.key) :: !Declared(sc, Top(x.key))
  }

  /** A validated document comes back flat as it was, every value in canonical form and no key
      more or less, exactly when it is not empty, nesting throws nothing, every undeclared key is no
      stored key and not the version key, every value lies in the exact domain of its field, and
      no key has a dot, but for raw dollar keys nested under another raw key of the document. */
  lemma DocumentRoundTrip(sc: Schema, ext: Extend, d: seq<Entry>, es: seq<Entry>, ls: seq<Entry>)
    requires ValidSchema(sc) && ValidDocument(sc, d) && RawApart(sc, d)
    requires Lists(es, Stored(sc, d)) && Lists(ls, Loaded(sc, es))
    ensures ComesBack(sc, d, Result(sc, ext, es, ls))
        <==> && d != [] && DotsOk(sc, d) && Unflattened(ext, ls).Some?
             && forall x | x in d :: KeyOk(sc, x.key) && ValueOk(sc, x)
  {
    if d == [] {
      EmptyDocument(sc, ext, es, ls);
    } else if x :| x in d && '.' in x.key && !IsRaw(sc, x.key) {
      DottedLost(sc, ext, d, es, ls, x);
      assert HasKey(d, x.key);
    } else if x :| x in d && !KeyOk(sc, x.key) {
      BadKeyNested(sc, ext, d, es, ls, x);
    } else if Unflattened(ext, ls).Some? {
      GoodKeysComeBack(sc, ext, d, es, ls);
    }
  }

  /** In particular, without dots nothing throws and nothing is nested. */
  lemma UndottedRoundTrip(sc: Schema, ext: Extend, d: seq<Entry>, es: seq<Entry>, ls: seq<Entry>)
    requires ValidSchema(sc) && ValidDocument(sc, d) && forall x | x in d :: '.' !in x.key
    requires Lists(es, Stored(sc, d)) && Lists(ls, Loaded(sc, es))
    ensures ComesBack(sc, d, Result(sc, ext, es, ls))
        <==> d != [] && forall x | x in d :: KeyOk(sc, x.key) && ValueOk(sc, x)
  {
    DocumentRoundTrip(sc, ext, d, es, ls);
    if d != [] && forall x | x in d :: KeyOk(sc, x.key) {
      forall e | e in ls
        ensures '.' !in e.key
      {
        assert e == Entry(e.key, e.value);
        LoadedKey(sc, d, es, e.key);
      }
      UnflattenedFlat(ext, ls);
    }
  }

  /** So for whatever the reader returns, in whatever order it takes the entries. */
  lemma ReadBack(sc: Schema, ext: Extend, d: seq<Entry>, es: seq<Entry>, outcome: Option<map<string, Node>>)
    requires ValidSchema(sc) && ValidDocument(sc, d) && RawApart(sc, d)
    requires Lists(es, Stored(sc, d)) && ReadsAs(sc, ext, es, outcome)
    ensures ComesBack(sc, d, outcome)
        <==> && d != [] && DotsOk(sc, d) && outcome.Some?
             && forall x | x in d :: KeyOk(sc, x.key) && ValueOk(sc, x)
  {
    var ls :| Lists(ls, Loaded(sc, es)) && outcome == Result(sc, ext, es, ls);
    DocumentRoundTrip(sc, ext, d, es, ls);
  }

  /** Harmless dots do occur: "$a.b" is nested under "$a" without a throw, if "$a" was falsy. */
  lemma HarmlessDots(ext: Extend)
    ensures var es := [Entry("$a", Num(0)), Entry("$a.b", Num(1))];
      Top("$a.b") == "$a" && Unflattened(ext, es).Some?
  {
    var x, y, path := Entry("$a", Num(0)), Entry("$a.b", Num(1)), ["$a", "b"];
    SplitFirst("$a", "b", '.');
    SplitFirst("b", "", '.');
    assert "$a" + ['.'] + "b" == "$a.b" && ["$a"] + ["b"] == path;
    assert [x, y][..1] == [x] && [x][..0] == [] && path[1..] == ["b"];
    assert Put(ext, map[], ["$a"], Num(0)) == Some(map["$a" := Leaf(Num(0))]);
    assert Put(ext, map["$a" := Leaf(Num(0))], path, Num(1)).Some?;
  }

  // The keys that are read, when all keys are good, are those of the document.
  lemma LoadedKey(sc: Schema, d: seq<Entry>, es: seq<Entry>, t: string)
    requires ValidSchema(sc) && ValidDocument(sc, d) && d != [] && Lists(es, Stored(sc, d))
    requires forall x | x in d :: KeyOk(sc, x.key)
    ensures t in Loaded(sc, es) <==> HasKey(d, t)
  {
    if t in Loaded(sc, es) {
      WriteAt(Loaded(sc, es), DollarEntries(es), t);
      NoOtherKeys(sc, d, es, t);
    }
    if x :| x in d && x.key == t {
      StoredAt(sc, d, x);
      KeyComesBack(sc, t);
      var stored := StoredEntry(sc, x);
      assert stored == Entry(stored.key, stored.value) && stored in es;
      LoadedFacts(sc, es, LoadedEntry(sc, stored));
      assert LoadedEntry(sc, stored).key == t;
      WriteAt(map[], LoadedEntries(sc, es), t);
    }
  }

  // The dollar keys of the stored record are the raw keys of the document.
  lemma DollarKey(sc: Schema, d: seq<Entry>, es: seq<Entry>, t: string)
    requires ValidSchema(sc) && ValidDocument(sc, d) && d != [] && Lists(es, Stored(sc, d))
    requires forall x | x in d :: KeyOk(sc, x.key)
    ensures t in Write(map[], DollarEntries(es)) <==> HasKey(d, t) && IsRaw(sc, t)
  {
    WriteAt(map[], DollarEntries(es), t);
    if HasKey(DollarEntries(es), t) {
      DollarEntryUndeclared(sc, d, es, t);
    }
    if x :| x in d && x.key == t && IsRaw(sc, t) {
      StoredAt(sc, d, x);
      UndeclaredKeys(sc, t);
      var stored := StoredEntry(sc, x);
      assert stored == Entry(t, stored.value) && stored in es;
      DollarFacts(es, stored);
    }
  }

  // The names at the top of the nested record.
  lemma {:induction false} TopNames(ext: Extend, ls: seq<Entry>, t: string)
    requires Unflattened(ext, ls).Some?
    ensures t in Unflattened(ext, ls).value <==> exists e :: e in ls && Top(e.key) == t
  {
    if ls != [] {
      var front, last := ls[..|ls| - 1], ls[|ls| - 1];
      SnocMembers(ls);
      PutTop(ext, Unflattened(ext, front).value, Split(last.key, '.'), last.value);
      TopNames(ext, front, t);
    }
  }

  // A key under which nothing is nested keeps its value.
  lemma {:induction false} AloneKept(ext: Extend, ls: seq<Entry>, t: string)
    requires Unflattened(ext, ls).Some? && HasKey(ls, t) && '.' !in t
    requires forall e | e in ls && Top(e.key) == t :: e.key == t
    ensures t in Unflattened(ext, ls).value && Unflattened(ext, ls).value[t].Leaf?
    ensures Entry(t, Unflattened(ext, ls).value[t].value) in ls
  {
    var front, last := ls[..|ls| - 1], ls[|ls| - 1];
    SnocMembers(ls);
    SplitFirst(t, "", '.');
    PutTop(ext, Unflattened(ext, front).value, Split(last.key, '.'), last.value);
    if last.key != t {
      AloneKept(ext, front, t);
    }
  }

  // With good keys and harmless dots only the values decide.
  lemma GoodKeysComeBack(sc: Schema, ext: Extend, d: seq<Entry>, es: seq<Entry>, ls: seq<Entry>)
    requires ValidSchema(sc) && ValidDocument(sc, d) && RawApart(sc, d) && d != []
    requires Lists(es, Stored(sc, d)) && Lists(ls, Loaded(sc, es)) && Unflattened(ext, ls).Some?
    requires forall x | x in d :: KeyOk(sc, x.key) && ('.' in x.key ==> IsRaw(sc, x.key))
    ensures ComesBack(sc, d, Result(sc, ext, es, ls)) <==> DotsOk(sc, d) && forall x | x in d :: ValueOk(sc, x)
  {
    var result := Result(sc, ext, es, ls).value;
    forall k
      ensures k in result.Keys <==> HasKey(d, k) || IsTop(d, k)
    {
      ResultName(sc, ext, d, es, ls, k);
    }
    NamesExact(sc, d, result.Keys);
    forall x | x in d
      ensures x.key in result
          && (result[x.key] == Leaf(Fields.Canonical(KindOf(sc, x.key), x.value)) <==> ValueOk(sc, x))
    {
      ResultValue(sc, ext, d, es, ls, x);
      ValueRoundTrip(sc, x);
    }
    ValuesDecide(sc, d, result);
  }

  ghost predicate IsTop(d: seq<Entry>, k: string) {
    exists x :: x in d && Top(x.key) == k
  }

  // The names at the top are the document's own exactly when its dots are harmless.
  lemma NamesExact(sc: Schema, d: seq<Entry>, names: set<string>)
    requires forall k :: k in names <==> HasKey(d, k) || IsTop(d, k)
    requires forall x | x in d && '.' in x.key :: IsRaw(sc, x.key)
    ensures (forall k :: k in names <==> HasKey(d, k)) <==> DotsOk(sc, d)
  {
    if DotsOk(sc, d) {
      forall k | IsTop(d, k)
        ensures HasKey(d, k)
      {
        var x :| x in d && Top(x.key) == k;
        if '.' !in x.key {
          SplitFirst(x.key, "", '.');
        }
      }
    } else {
      var x :| x in d && '.' in x.key && !HasKey(d, Top(x.key));
      assert IsTop(d, Top(x.key));
    }
  }

  lemma ValuesDecide(sc: Schema, d: seq<Entry>, result: map<string, Node>)
    requires AllValidated(sc, d)
    requires forall x | x in d ::
               x.key in result
                   && (result[x.key] == Leaf(Fields.Canonical(KindOf(sc, x.key), x.value)) <==> ValueOk(sc, x))
    ensures ComesBack(sc, d, Some(result))
        <==> (forall k :: k in result.Keys <==> HasKey(d, k)) && forall x | x in d :: ValueOk(sc, x)
  {
  }

  lemma ResultName(sc: Schema, ext: Extend, d: seq<Entry>, es: seq<Entry>, ls: seq<Entry>, k: string)
    requires ValidSchema(sc) && ValidDocument(sc, d) && d != []
    requires Lists(es, Stored(sc, d)) && Lists(ls, Loaded(sc, es)) && Unflattened(ext, ls).Some?
    requires forall x | x in d :: KeyOk(sc, x.key) && ('.' in x.key ==> IsRaw(sc, x.key))
    ensures k in Result(sc, ext, es, ls).value <==> HasKey(d, k) || IsTop(d, k)
  {
    TopNames(ext, ls, k);
    DollarKey(sc, d, es, k);
    if e :| e in ls && Top(e.key) == k {
      assert e == Entry(e.key, e.value);
      LoadedKey(sc, d, es, e.key);
    }
    if x :| x in d && (Top(x.key) == k || x.key == k) {
      LoadedKey(sc, d, es, x.key);
      assert Entry(x.key, Loaded(sc, es)[x.key]) in ls;
      if '.' !in x.key {
        SplitFirst(x.key, "", '.');
      }
    }
  }

  lemma ResultValue(sc: Schema, ext: Extend, d: seq<Entry>, es: seq<Entry>, ls: seq<Entry>, x: Entry)
    requires ValidSchema(sc) && ValidDocument(sc, d) && RawApart(sc, d) && d != [] && x in d
    requires Lists(es, Stored(sc, d)) && Lists(ls, Loaded(sc, es)) && Unflattened(ext, ls).Some?
    requires forall y | y in d :: KeyOk(sc, y.key) && ('.' in y.key ==> IsRaw(sc, y.key))
    ensures x.key in Result(sc, ext, es, ls).value && Result(sc, ext, es, ls).value[x.key] == Leaf(Returned(sc, x))
  {
    var k := x.key;
    ResultAt(sc, d, es, x);
    DollarKey(sc, d, es, k);
    WriteOver(Loaded(sc, es), DollarEntries(es));
    if !IsRaw(sc, k) {
      LoadedKey(sc, d, es, k);
      assert Entry(k, Loaded(sc, es)[k]) in ls;
      NothingNestedUnder(sc, d, es, ls, k);
      AloneKept(ext, ls, k);
    }
  }

  lemma NothingNestedUnder(sc: Schema, d: seq<Entry>, es: seq<Entry>, ls: seq<Entry>, k: string)
    requires ValidSchema(sc) && ValidDocument(sc, d) && RawApart(sc, d) && d != []
    requires Lists(es, Stored(sc, d)) && Lists(ls, Loaded(sc, es))
    requires HasKey(d, k) && !IsRaw(sc, k) && forall y | y in d ::
        KeyOk(sc, y.key) && ('.' in y.key ==> IsRaw(sc, y.key))
    ensures forall e | e in ls && Top(e.key) == k :: e.key == k
  {
    forall e | e in ls && Top(e.key) == k
      ensures e.key == k
    {
      assert e == Entry(e.key, e.value);
      LoadedKey(sc, d, es, e.key);
      if '.' in e.key {
        TopOfDollar(e.key);
      } else {
        SplitFirst(e.key, "", '.');
      }
    }
  }

  lemma TopOfDollar(k: string)
    requires IsDollar(k)
    ensures IsDollar(Top(k))
  {
  }

  // A dotted key that is not raw is nested away: it is no name at the top of the result.
  lemma DottedLost(sc: Schema, ext: Extend, d: seq<Entry>, es: seq<Entry>, ls: seq<Entry>, x: Entry)
    requires ValidSchema(sc) && ValidDocument(sc, d) && d != [] && Lists(es, Stored(sc, d))
    requires x in d && '.' in x.key && !IsRaw(sc, x.key)
    ensures Result(sc, ext, es, ls).Some? ==> x.key !in Result(sc, ext, es, ls).value
  {
    var k := x.key;
    if Result(sc, ext, es, ls).Some? && k in Result(sc, ext, es, ls).value {
      WriteAt(map[], DollarEntries(es), k);
      if HasKey(DollarEntries(es), k) {
        DollarEntryUndeclared(sc, d, es, k);
      } else {
        UnflattenedTop(ext, ls, k);
      }
    }
  }

  // A dollar key of the stored record is an undeclared key of the document.
  lemma DollarEntryUndeclared(sc: Schema, d: seq<Entry>, es: seq<Entry>, k: string)
    requires ValidSchema(sc) && ValidDocument(sc, d) && d != [] && Lists(es, Stored(sc, d))
        && HasKey(DollarEntries(es), k)
    ensures IsDollar(k) && !Declared(sc, k) && HasKey(d, k)
  {
    var e :| e in DollarEntries(es) && e.key == k;
    DollarFacts(es, e);
    assert e == Entry(k, e.value);
    StoredSource(sc, d, k);
    var y :| y in d && StoredEntry(sc, y) == Entry(k, Stored(sc, d)[k]);
    KeyComesBack(sc, y.key);
    UndeclaredKeys(sc, y.key);
  }

  // A key that is not good is not read, so at most a nested object stands there.
  lemma BadKeyNested(sc: Schema, ext: Extend, d: seq<Entry>, es: seq<Entry>, ls: seq<Entry>, x: Entry)
    requires ValidSchema(sc) && ValidDocument(sc, d) && d != [] && Lists(es, Stored(sc, d)) && Lists(ls, Loaded(sc, es))
    requires x in d && !KeyOk(sc, x.key)
    ensures !ComesBack(sc, d, Result(sc, ext, es, ls))
  {
    var k, result := x.key, Result(sc, ext, es, ls);
    BadKeyLost(sc, d, es, k);
    WriteAt(Loaded(sc, es), DollarEntries(es), k);
    WriteAt(map[], DollarEntries(es), k);
    assert HasKey(d, k);
    if result.Some? && k in result.value {
      UnflattenedTop(ext, ls, k);
      forall e | e in ls
        ensures e.key != k
      {
        assert e == Entry(e.key, e.value);
      }
      assert result.value[k].Inner?;
    }
  }

  /** The empty document does not come back empty: it returns with one empty object under the empty key. */
  lemma EmptyDocument(sc: Schema, ext: Extend, es: seq<Entry>, ls: seq<Entry>)
    requires ValidSchema(sc) && Lists(es, Stored(sc, [])) && Lists(ls, Loaded(sc, es))
    ensures var result := Result(sc, ext, es, ls);
      result.Some? && "" in result.value && result.value[""] == Leaf(Json("{}"))
  {
    EmptyFlat(sc, es);
    forall t | t in Loaded(sc, es)
      ensures '.' !in t
    {
      WriteAt(map[], LoadedEntries(sc, es), t);
      LoadedFacts(sc, es, Entry(t, Loaded(sc, es)[t]));
      var z :| z in es && z.key != "_v" && Entry(t, Loaded(sc, es)[t]) == LoadedEntry(sc, z);
      assert z == Entry(z.key, z.value);
      UndeclaredKeys(sc, "");
    }
    FlatResult(sc, ext, es, ls);
  }

  lemma EmptyFlat(sc: Schema, es: seq<Entry>)
    requires ValidSchema(sc) && Lists(es, Stored(sc, []))
    ensures "" in Unmapped(sc, es) && Unmapped(sc, es)[""] == Json("{}")
  {
    assert !Declared(sc, "") && !IsStoredKey(sc, "");
    UndeclaredKeys(sc, "");
    var stored := Entry("", Str("{}"));
    assert stored in es;
    LoadedFacts(sc, es, LoadedEntry(sc, stored));
    WriteAt(map[], LoadedEntries(sc, es), "");
    EmptySource(sc, es, Write(map[], LoadedEntries(sc, es))[""]);
    WriteAt(Write(map[], LoadedEntries(sc, es)), DollarEntries(es), "");
    NoEmptyDollar(es);
  }

  lemma EmptySource(sc: Schema, es: seq<Entry>, v: FieldValue)
    requires ValidSchema(sc) && Lists(es, Stored(sc, [])) && MappedKey(sc, "") == "" && OriginalKey(sc, "") == ""
        && !Declared(sc, "")
    requires Entry("", v) in LoadedEntries(sc, es)
    ensures v == Json("{}")
  {
    LoadedFacts(sc, es, Entry("", v));
    var z :| z in es && z.key != "_v" && Entry("", v) == LoadedEntry(sc, z);
    assert z == Entry(z.key, z.value);
    EmptyStored(sc, z);
    EmptyObjectLoads(sc);
  }

  lemma EmptyStored(sc: Schema, z: Entry)
    requires MappedKey(sc, "") == "" && z.key != "_v" && z.key in Stored(sc, []) && Stored(sc, [])[z.key] == z.value
    ensures z == Entry("", Str("{}"))
  {
    assert Stored(sc, []) == map["_v" := Str(sc.version)]["" := Str("{}")];
  }

  lemma EmptyObjectLoads(sc: Schema)
    requires ValidContext(sc.context) && !Declared(sc, "")
    ensures Load(sc.context, KindOf(sc, ""), Str("{}")) == Json("{}")
  {
  }

  lemma NoEmptyDollar(es: seq<Entry>)
    ensures !HasKey(DollarEntries(es), "")
  {
    forall e | e in DollarEntries(es)
      ensures e.key != ""
    {
      DollarFacts(es, e);
    }
  }

  // The constructor meets ValidSchema.

  lemma UserKeysInverse(r: Registry.SchemaRegistry, keys: seq<string>, r': Registry.SchemaRegistry)
    requires Registry.Step(r, keys, r') && Registry.Unambiguous(r)
    requires forall k | k in keys :: k in r'.mapping
    ensures var texts := Registry.KeyTexts(r'.mapping, keys); Inverse(texts, Registry.Reverse(texts, keys))
  {
    RegistryRuns.StepUnambiguous(r, keys, r');
    var texts := Registry.KeyTexts(r'.mapping, keys);
    RegistryRuns.ReverseFacts(texts, keys);
    forall a | a in keys
      ensures Registry.Reverse(texts, keys)[texts[a]] == a
    {
      var b := Registry.Reverse(texts, keys)[texts[a]];
      PrintInjective(r'.mapping[a], r'.mapping[b], 36);
      assert Registry.Owns(r', a, r'.mapping[a]) && Registry.Owns(r', b, r'.mapping[a]);
    }
  }

  ghost predicate IsAttributeKey(t: string, limit: nat) {
    exists i: nat :: i < limit && t == Print(i, 36)
  }

  lemma UserKeysShape(r: Registry.SchemaRegistry, keys: seq<string>, r': Registry.SchemaRegistry)
    requires Registry.Step(r, keys, r') && forall k | k in keys :: k in r'.mapping
    ensures forall t | t in Registry.Reverse(Registry.KeyTexts(r'.mapping, keys), keys) ::
        IsAttributeKey(t, r'.nextIndex)
  {
    RegistryRuns.StepFacts(r, keys, r');
    var texts := Registry.KeyTexts(r'.mapping, keys);
    RegistryRuns.ReverseFacts(texts, keys);
    forall t | t in Registry.Reverse(texts, keys)
      ensures IsAttributeKey(t, r'.nextIndex)
    {
      var a := Registry.Reverse(texts, keys)[t];
      assert Registry.Used(r', r'.mapping[a]);
    }
  }

  // A base-36 key below the plugin keys.
  ghost predicate IsSmallKey(t: string) {
    t != "" && IsNumeral(t, 36) && Value(t, 36) < PluginKeys.FIRST_SHARED
  }

  lemma SmallKeyText(t: string)
    requires IsSmallKey(t)
    ensures t != "" && t != "_v" && t[0] != '$' && !PluginKeys.IsPluginKey(t)
  {
    assert ValueOf(t[0]) < 36 && ValueOf('$') == 62 && ValueOf('_') == 62;
    if PluginKeys.IsPluginKey(t) {
      var h, n: nat :| PluginKeys.IsHash(h) && t == PluginKeys.Candidate(h, n);
      PluginKeys.CandidateIsShared(t, h, n);
    }
  }

  lemma AttributeKeyIsSmall(t: string, limit: nat)
    requires limit <= PluginKeys.FIRST_SHARED && IsAttributeKey(t, limit)
    ensures IsSmallKey(t)
  {
    var i: nat :| i < limit && t == Print(i, 36);
    PrintShape(i, 36);
    ValuePrint(i, 36);
  }

  lemma PluginKeyText(t: string)
    requires PluginKeys.IsPluginKey(t)
    ensures t != "" && t != "_v" && t[0] != '$'
  {
    var h, n: nat :| PluginKeys.IsHash(h) && t == PluginKeys.Candidate(h, n);
    assert t[0] == h[0];
  }

  // The user key maps are those revision `keys`, ending in registry r', leaves.
  ghost predicate UserKeysBuilt(sc: Schema, r': Registry.SchemaRegistry, keys: seq<string>) {
    && (forall k | k in keys :: k in r'.mapping)
    && sc.keyMap == Registry.KeyTexts(r'.mapping, keys)
    && sc.reversed == Registry.Reverse(sc.keyMap, keys)
  }

  ghost predicate PluginKeysBuilt(sc: Schema, hash: PluginKeys.Hash, attributes: seq<PluginKeys.PluginAttribute>) {
    && sc.pluginMap == PluginKeys.PluginMap(hash, attributes).mapping
    && sc.reversedPlugin == PluginKeys.PluginMap(hash, attributes).reversed
  }

  ghost predicate KindsDeclared(sc: Schema) {
    "" !in sc.kinds && forall k :: k in sc.kinds <==> k in sc.keyMap || k in sc.pluginMap
  }

  ghost predicate StoredPluginKeysBuilt(sc: Schema, hash: PluginKeys.Hash, attributes: seq<PluginKeys.PluginAttribute>,
                                        existing: map<string, PluginKeys.PluginRegistry>) {
    var maps := PluginSchema.AllPlugins(hash, PluginSchema.Grouped(attributes), existing).maps;
    sc.pluginMap == maps.full && sc.reversedPlugin == maps.reversed
  }

  // Small keys and plugin keys never meet, and neither looks like a version or dollar key.
  lemma StoredKeyTexts(sc: Schema)
    requires forall t | t in sc.reversed :: IsSmallKey(t)
    requires forall t | t in sc.reversedPlugin :: PluginKeys.IsPluginKey(t)
    ensures forall t | t in sc.reversed :: t !in sc.reversedPlugin
    ensures forall t | IsStoredKey(sc, t) :: t != "" && t != "_v" && t[0] != '$'
  {
    forall t | IsStoredKey(sc, t)
      ensures t != "" && t != "_v" && t[0] != '$' && (t in sc.reversed ==> t !in sc.reversedPlugin)
    {
      if t in sc.reversed {
        SmallKeyText(t);
      } else {
        PluginKeyText(t);
      }
    }
  }

  lemma UserKeysSmall(r: Registry.SchemaRegistry, keys: seq<string>, r': Registry.SchemaRegistry, sc: Schema)
    requires Registry.Step(r, keys, r') && r'.nextIndex <= PluginKeys.FIRST_SHARED && UserKeysBuilt(sc, r', keys)
    ensures forall t | t in sc.reversed :: IsSmallKey(t)
  {
    UserKeysShape(r, keys, r');
    forall t | t in sc.reversed
      ensures IsSmallKey(t)
    {
      AttributeKeyIsSmall(t, r'.nextIndex);
    }
  }

  /** A schema built from an unambiguous registry with fewer than 25 * 36^3 indices and from
      plugin attributes of any hash has disjoint, invertible key maps: it is valid. */
  lemma BuiltSchema(r: Registry.SchemaRegistry, keys: seq<string>, r': Registry.SchemaRegistry,
                    hash: PluginKeys.Hash, attributes: seq<PluginKeys.PluginAttribute>, sc: Schema)
    requires Registry.Step(r, keys, r') && Registry.Unambiguous(r) && r'.nextIndex <= PluginKeys.FIRST_SHARED
    requires PluginKeys.Shaped(hash) && PluginKeys.DistinctKeys(attributes) && ValidContext(sc.context)
    requires UserKeysBuilt(sc, r', keys) && PluginKeysBuilt(sc, hash, attributes) && KindsDeclared(sc)
    ensures ValidSchema(sc)
  {
    UserKeysInverse(r, keys, r');
    UserKeysSmall(r, keys, r', sc);
    PluginKeys.PluginMapInverse(hash, attributes);
    PluginKeys.PluginMapShape(hash, attributes);
    StoredKeyTexts(sc);
  }

  /** Built from stored plugin registries instead, it is valid exactly when no plugin's stored key
      was taken by a plugin handled before it. That is certain when no stored key is in reach of
      an earlier plugin, and for stored keys without suffix there is an exact test on the inputs. */
  lemma BuiltSchemaStored(r: Registry.SchemaRegistry, keys: seq<string>, r': Registry.SchemaRegistry,
                          hash: PluginKeys.Hash, attributes: seq<PluginKeys.PluginAttribute>,
                          existing: map<string, PluginKeys.PluginRegistry>, sc: Schema)
    requires Registry.Step(r, keys, r') && Registry.Unambiguous(r) && r'.nextIndex <= PluginKeys.FIRST_SHARED
    requires PluginKeys.Shaped(hash) && PluginKeys.DistinctKeys(attributes) && ValidContext(sc.context)
    requires forall g | g in PluginSchema.Grouped(attributes) ::
        PluginKeys.WellKept(PluginSchema.StoredFor(existing, g))
    requires UserKeysBuilt(sc, r', keys) && StoredPluginKeysBuilt(sc, hash, attributes, existing) && KindsDeclared(sc)
    ensures var groups := PluginSchema.Grouped(attributes);
      && (ValidSchema(sc) <==> !PluginSchema.SomeLate(hash, groups, existing))
      && (PluginSchema.OutOfReach(hash, groups, existing) ==> ValidSchema(sc))
      && (PluginSchema.BareKeys(groups, existing) ==>
          (ValidSchema(sc) <==> !PluginSchema.SomeMeet(hash, groups, existing)))
  {
    var groups := PluginSchema.Grouped(attributes);
    PluginSchema.GroupedNames(attributes);
    UserKeysInverse(r, keys, r');
    UserKeysSmall(r, keys, r', sc);
    PluginSchema.PluginMapsInverse(hash, groups, existing);
    PluginSchema.FlatShape(hash, groups, existing);
    StoredKeyTexts(sc);
    if PluginSchema.OutOfReach(hash, groups, existing) {
      PluginSchema.OutOfReachInverse(hash, groups, existing);
    }
    if PluginSchema.BareKeys(groups, existing) {
      PluginSchema.BareKeysInverse(hash, groups, existing);
    }
  }

  lemma MergedKeysSmall(m: map<string, string>, r: Registry.SchemaRegistry, keys: seq<string>, maps: Maps,
                        r': Registry.SchemaRegistry)
    requires ValidMap(m) && Merged(m, r, keys, maps, r') && r'.nextIndex <= PluginKeys.FIRST_SHARED
    ensures forall t | t in maps.reversed :: IsSmallKey(t)
  {
    MergedTied(m, r, keys, maps, r');
    forall t | t in maps.reversed
      ensures IsSmallKey(t)
    {
      MergedKeySmall(m, r, keys, maps, r', maps.reversed[t]);
    }
  }

  lemma MergedKeySmall(m: map<string, string>, r: Registry.SchemaRegistry, keys: seq<string>, maps: Maps,
                       r': Registry.SchemaRegistry, a: string)
    requires ValidMap(m) && Merged(m, r, keys, maps, r') && r'.nextIndex <= PluginKeys.FIRST_SHARED && a in maps.full
    ensures IsSmallKey(maps.full[a])
  {
    var built :| FromMap(m, r, built) && Registry.Step(built, keys, r');
    RegistryRuns.StepFacts(built, keys, r');
    MergedTied(m, r, keys, maps, r');
    if a in m {
      BuiltFacts(m, r, built);
    } else {
      assert Registry.Used(r', r'.mapping[a]);
      AttributeKeyIsSmall(maps.full[a], r'.nextIndex);
    }
  }

  /** Built from a persisted map merged with a registry, it is valid exactly when the registry
      agrees with the map. An attribute only the map still lists has the plain kind. */
  lemma BuiltSchemaMerged(m: map<string, string>, r: Registry.SchemaRegistry, keys: seq<string>, maps: Maps,
                          r': Registry.SchemaRegistry,
                          hash: PluginKeys.Hash, attributes: seq<PluginKeys.PluginAttribute>, sc: Schema)
    requires ValidMap(m) && Merged(m, r, keys, maps, r') && r'.nextIndex <= PluginKeys.FIRST_SHARED
    requires PluginKeys.Shaped(hash) && PluginKeys.DistinctKeys(attributes) && ValidContext(sc.context)
    requires sc.keyMap == maps.full && sc.reversed == maps.reversed && PluginKeysBuilt(sc, hash, attributes)
        && KindsDeclared(sc)
    ensures ValidSchema(sc) <==> Agrees(m, r, keys)
  {
    MergeInverse(m, r, keys, maps, r');
    MergedKeysSmall(m, r, keys, maps, r');
    PluginKeys.PluginMapInverse(hash, attributes);
    PluginKeys.PluginMapShape(hash, attributes);
    StoredKeyTexts(sc);
  }
}
