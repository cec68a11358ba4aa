/** Documents with objects inside objects: `flatten` lists their leaves under dotted keys before
    they are stored, and `unflatten` nests what was read (src/concerns/flatten.ts). */
module NestedDocument {
  import opened Options
  import opened Texts
  import opened Fields
  import opened Document

  type Path = seq<string>

  // What stands at a path of a nested record.
  datatype Stand = Absent | IsValue(v: FieldValue) | IsObject(isArray: bool)

  function At(fields: map<string, Node>, p: Path): Stand
    requires p != []
    decreases |p|
  {
    if p[0] !in fields then Absent
    else
      match fields[p[0]]
      case Leaf(v) => if |p| == 1 then IsValue(v) else Absent
      case Inner(isArray, below) => if |p| == 1 then IsObject(isArray) else At(below, p[1..])
  }

  lemma {:induction false} SameNode(a: Node, b: Node)
    requires a.Inner? && b.Inner? && a.isArray == b.isArray
    requires forall p: Path | p != [] :: At(a.fields, p) == At(b.fields, p)
    ensures a == b
    decreases a
  {
    forall k
      ensures k in a.fields <==> k in b.fields
      ensures k in a.fields ==> a.fields[k] == b.fields[k]
    {
      assert At(a.fields, [k]) == At(b.fields, [k]);
      if k in a.fields && a.fields[k].Inner? {
        forall p: Path | p != []
          ensures At(a.fields[k].fields, p) == At(b.fields[k].fields, p)
        {
          assert ([k] + p)[1..] == p;
          assert At(a.fields, [k] + p) == At(b.fields, [k] + p);
        }
        SameNode(a.fields[k], b.fields[k]);
      }
    }
    assert a.fields == b.fields;
  }

  // One write.

  // No value stands on the way.
  predicate Clear(fields: map<string, Node>, path: Path)
    requires path != []
    decreases |path|
  {
    |path| == 1 || path[0] !in fields || (fields[path[0]].Inner? && Clear(fields[path[0]].fields, path[1..]))
  }

  lemma {:induction false} ClearWhen(fields: map<string, Node>, path: Path)
    requires path != [] && forall n: nat | 0 < n < |path| :: !At(fields, path[..n]).IsValue?
    ensures Clear(fields, path)
    decreases |path|
  {
    if |path| > 1 && path[0] in fields {
      assert path[..1] == [path[0]] && !At(fields, path[..1]).IsValue?;
      forall n: nat | 0 < n < |path| - 1
        ensures !At(fields[path[0]].fields, path[1..][..n]).IsValue?
      {
        assert path[..n + 1][1..] == path[1..][..n];
        assert !At(fields, path[..n + 1]).IsValue?;
      }
      ClearWhen(fields[path[0]].fields, path[1..]);
    }
  }

  // What a write at `path` leaves at q.
  function After(before: Stand, path: Path, v: FieldValue, q: Path): Stand {
    if q == path then IsValue(v)
    else if q < path then (if before.IsObject? then before else IsObject(IsIndex(path[|q|])))
    else if path < q then Absent
    else before
  }

  // A write with a longer path goes into the object below its first name.
  lemma PutDeeper(ext: Extend, fields: map<string, Node>, path: Path, v: FieldValue)
    requires |path| > 1 && Clear(fields, path)
    requires Put(ext, if path[0] in fields then fields[path[0]].fields else map[], path[1..], v).Some?
    ensures var below := if path[0] in fields then fields[path[0]].fields else map[];
      var isArray := if path[0] in fields then fields[path[0]].isArray else IsIndex(path[1]);
      Put(ext, fields, path, v) == Some(fields[path[0] := Inner(isArray, Put(ext, below, path[1..], v).value)])
  {
  }

  lemma {:induction false} PutAt(ext: Extend, fields: map<string, Node>, path: Path, v: FieldValue, q: Path)
    requires path != [] && q != [] && Clear(fields, path)
    ensures Put(ext, fields, path, v).Some?
        && At(Put(ext, fields, path, v).value, q) == After(At(fields, q), path, v, q)
    decreases |path|
  {
    if |path| > 1 {
      var below := if path[0] in fields then fields[path[0]].fields else map[];
      PutAt(ext, below, path[1..], v, if |q| > 1 && q[0] == path[0] then q[1..] else path[1..]);
      PutDeeper(ext, fields, path, v);
      PathTails(path, q);
      AtUpdated(fields, path[0], Put(ext, fields, path, v).value[path[0]], q);
    } else {
      OneName(path, q);
    }
  }

  lemma AtUpdated(fields: map<string, Node>, name: string, node: Node, q: Path)
    requires q != []
    ensures q[0] != name ==> At(fields[name := node], q) == At(fields, q)
    ensures q[0] == name && node.Inner?
        ==> At(fields[name := node], q) == if |q| == 1 then IsObject(node.isArray) else At(node.fields, q[1..])
  {
  }

  lemma OneName(path: Path, q: Path)
    requires |path| == 1 && q != []
    ensures q[0] == path[0] <==> path <= q
    ensures !(q < path)
  {
  }

  lemma PathTails(path: Path, q: Path)
    requires |path| > 1 && q != []
    ensures q[0] != path[0] ==> !(path <= q) && !(q <= path)
    ensures q[0] == path[0] && |q| == 1 ==> q < path
    ensures q[0] == path[0] && |q| > 1 ==> (q == path <==> q[1..] == path[1..])
    ensures q[0] == path[0] && |q| > 1 ==> (q < path <==> q[1..] < path[1..]) && (path < q <==> path[1..] < q[1..])
  {
    if q[0] == path[0] && |q| > 1 {
      assert q == [q[0]] + q[1..] && path == [path[0]] + path[1..];
    }
  }

  // All writes.

  function PathOf(e: Entry): (p: Path)
    ensures p != []
  {
    Split(e.key, '.')
  }

  // No path leads through another's value.
  ghost predicate PrefixFree(ls: seq<Entry>) {
    forall e, f | e in ls && f in ls && PathOf(e) <= PathOf(f) :: PathOf(e) == PathOf(f)
  }

  ghost predicate OneValue(ls: seq<Entry>) {
    forall e, f | e in ls && f in ls && e.key == f.key :: e == f
  }

  function Expected(ls: seq<Entry>, q: Path): Stand {
    if ls == [] then Absent
    else After(Expected(ls[..|ls| - 1], q), PathOf(ls[|ls| - 1]), ls[|ls| - 1].value, q)
  }

  ghost predicate Below(ls: seq<Entry>, q: Path) {
    exists e :: e in ls && q < PathOf(e)
  }

  ghost predicate Here(ls: seq<Entry>, q: Path, v: FieldValue) {
    exists e :: e in ls && PathOf(e) == q && e.value == v
  }

  lemma SamePath(e: Entry, f: Entry)
    requires PathOf(e) == PathOf(f)
    ensures e.key == f.key
  {
    JoinSplit(e.key, '.');
    JoinSplit(f.key, '.');
  }

  // What After does when no path leads through another's value.
  lemma AddedHere(front: seq<Entry>, last: Entry, q: Path, v: FieldValue)
    requires PrefixFree(front + [last]) && OneValue(front + [last])
    ensures Here(front + [last], q, v) <==> Here(front, q, v) || (PathOf(last) == q && last.value == v)
    ensures Here(front, q, v) ==> !(q < PathOf(last)) && !(PathOf(last) < q) && (PathOf(last) == q ==> last.value == v)
  {
    var ls := front + [last];
    assert forall e :: e in ls <==> e in front || e == last;
    if e :| e in front && PathOf(e) == q && e.value == v {
      assert e in ls && last in ls;
      if PathOf(last) == q {
        SamePath(e, last);
      }
    }
  }

  lemma AddedBelow(front: seq<Entry>, last: Entry, q: Path)
    requires PrefixFree(front + [last])
    ensures Below(front + [last], q) <==> Below(front, q) || q < PathOf(last)
    ensures Below(front, q) ==> PathOf(last) != q && !(PathOf(last) < q)
  {
    var ls := front + [last];
    assert forall e :: e in ls <==> e in front || e == last;
    if e :| e in front && q < PathOf(e) {
      assert e in ls && last in ls;
    }
  }

  // A value stands where one is listed, an object above every listed path, and nothing elsewhere.
  lemma {:induction false} ExpectedShape(ls: seq<Entry>, q: Path)
    requires PrefixFree(ls) && OneValue(ls)
    ensures forall v :: Expected(ls, q) == IsValue(v) <==> Here(ls, q, v)
    ensures Expected(ls, q).IsObject? <==> Below(ls, q)
  {
    if ls != [] {
      var front, last := ls[..|ls| - 1], ls[|ls| - 1];
      assert ls == front + [last];
      SnocMembers(ls);
      ExpectedShape(front, q);
      AddedBelow(front, last, q);
      forall v
        ensures Expected(ls, q) == IsValue(v) <==> Here(ls, q, v)
      {
        AddedHere(front, last, q, v);
      }
    }
  }

  lemma {:induction false} UnflattenedAt(ext: Extend, ls: seq<Entry>, q: Path)
    requires PrefixFree(ls) && OneValue(ls) && q != []
    ensures Unflattened(ext, ls).Some? && At(Unflattened(ext, ls).value, q) == Expected(ls, q)
    decreases |ls|
  {
    if ls != [] {
      var front, last := ls[..|ls| - 1], ls[|ls| - 1];
      SnocMembers(ls);
      UnflattenedAt(ext, front, q);
      var path := PathOf(last);
      forall n: nat | 0 < n < |path|
        ensures !At(Unflattened(ext, front).value, path[..n]).IsValue?
      {
        UnflattenedAt(ext, front, path[..n]);
        ExpectedShape(front, path[..n]);
        assert path[..n] <= path && last in ls;
      }
      ClearWhen(Unflattened(ext, front).value, path);
      PutAt(ext, Unflattened(ext, front).value, path, last.value, q);
    }
  }

  // Documents.

  // Objects, not arrays, hold at least one member, and no name has a dot.
  predicate Sound(n: Node) {
    n.Inner? ==> !n.isArray && n.fields != map[] && forall k | k in n.fields :: '.' !in k && Sound(n.fields[k])
  }

  // At the top an object is not named by the empty text either: `flatten` would drop the name.
  predicate SoundDocument(x: map<string, Node>) {
    forall k | k in x :: '.' !in k && Sound(x[k]) && (x[k].Inner? ==> k != "")
  }

  // The key `flatten` gives a path: a dot goes before a name unless nothing stands before it.
  function FlatKey(p: Path): string {
    if p == [] then ""
    else
      var front, last := FlatKey(p[..|p| - 1]), p[|p| - 1];
      if front == "" then last else front + "." + last
  }

  lemma {:induction false} JoinSnoc(parts: seq<string>, last: string)
    requires parts != []
    ensures Join(parts + [last], '.') == Join(parts, '.') + "." + last
  {
    if |parts| > 1 {
      JoinSnoc(parts[1..], last);
      assert (parts + [last])[1..] == parts[1..] + [last];
    } else {
      assert (parts + [last])[1..] == [last];
    }
  }

  lemma {:induction false} FlatKeyJoins(p: Path)
    requires p != [] && (|p| > 1 ==> p[0] != "")
    ensures FlatKey(p) == Join(p, '.') && (p[0] != "" ==> FlatKey(p) != "")
  {
    var front := p[..|p| - 1];
    assert p == front + [p[|p| - 1]];
    if front != [] {
      FlatKeyJoins(front);
      JoinSnoc(front, p[|p| - 1]);
    }
  }

  // The paths of a sound document.
  lemma {:induction false} SoundPath(fields: map<string, Node>, p: Path)
    requires (forall k | k in fields :: '.' !in k && Sound(fields[k])) && p != [] && At(fields, p) != Absent
    ensures forall i | 0 <= i < |p| :: '.' !in p[i]
    ensures At(fields, p).IsObject? ==> !At(fields, p).isArray
    ensures |p| > 1 ==> p[0] in fields && fields[p[0]].Inner?
    decreases |p|
  {
    if |p| > 1 {
      SoundPath(fields[p[0]].fields, p[1..]);
      assert forall i | 1 <= i < |p| :: p[i] == p[1..][i - 1];
    }
  }

  lemma KeyOfPath(x: map<string, Node>, p: Path)
    requires SoundDocument(x) && p != [] && At(x, p) != Absent
    ensures Split(FlatKey(p), '.') == p
  {
    SoundPath(x, p);
    FlatKeyJoins(p);
    SplitJoin(p, '.');
  }

  // Nothing stands below a value.
  lemma {:induction false} NothingBelow(fields: map<string, Node>, p: Path, q: Path)
    requires p != [] && p < q && At(fields, q) != Absent
    ensures At(fields, p).IsObject?
    decreases |p|
  {
    if |p| > 1 {
      assert p[1..] < q[1..];
      NothingBelow(fields[p[0]].fields, p[1..], q[1..]);
    }
  }

  // Every object has a value below it.
  lemma {:induction false} ValueBelow(fields: map<string, Node>, p: Path) returns (q: Path)
    requires (forall k | k in fields :: Sound(fields[k])) && p != [] && At(fields, p).IsObject?
    ensures p < q && At(fields, q).IsValue?
    decreases |p|
  {
    if |p| > 1 {
      var rest := ValueBelow(fields[p[0]].fields, p[1..]);
      q := [p[0]] + rest;
      assert p == [p[0]] + p[1..] && q[1..] == rest;
    } else {
      var rest := SomeValue(fields[p[0]]);
      q := p + rest;
      assert q[1..] == rest;
    }
  }

  lemma {:induction false} SomeValue(n: Node) returns (q: Path)
    requires Sound(n) && n.Inner?
    ensures q != [] && At(n.fields, q).IsValue?
    decreases n
  {
    var k :| k in n.fields;
    if n.fields[k].Leaf? {
      q := [k];
    } else {
      var rest := SomeValue(n.fields[k]);
      q := [k] + rest;
      assert q[1..] == rest;
    }
  }

  // d lists the values of x under their flat keys, in any order.
  ghost predicate Flattens(d: seq<Entry>, x: map<string, Node>) {
    && (forall e | e in d :: exists p: Path :: p != [] && At(x, p) == IsValue(e.value) && e.key == FlatKey(p))
    && (forall p: Path | p != [] && At(x, p).IsValue? :: Entry(FlatKey(p), At(x, p).v) in d)
  }

  // The same keys as d, whatever values.
  ghost predicate SameKeys(ls: seq<Entry>, d: seq<Entry>) {
    OneValue(ls) && forall k :: HasKey(ls, k) <==> HasKey(d, k)
  }

  lemma EntryPath(d: seq<Entry>, x: map<string, Node>, e: Entry)
    requires SoundDocument(x) && Flattens(d, x) && e in d
    ensures At(x, PathOf(e)) == IsValue(e.value) && e.key == FlatKey(PathOf(e))
  {
    var p: Path :| p != [] && At(x, p) == IsValue(e.value) && e.key == FlatKey(p);
    KeyOfPath(x, p);
  }

  lemma ListedPath(ls: seq<Entry>, d: seq<Entry>, x: map<string, Node>, f: Entry)
    requires SoundDocument(x) && Flattens(d, x) && SameKeys(ls, d) && f in ls
    ensures At(x, PathOf(f)).IsValue? && f.key == FlatKey(PathOf(f))
  {
    assert HasKey(ls, f.key);
    var e :| e in d && e.key == f.key;
    EntryPath(d, x, e);
  }

  lemma ListedPrefixFree(ls: seq<Entry>, d: seq<Entry>, x: map<string, Node>)
    requires SoundDocument(x) && Flattens(d, x) && SameKeys(ls, d)
    ensures PrefixFree(ls)
  {
    forall e, f | e in ls && f in ls && PathOf(e) <= PathOf(f)
      ensures PathOf(e) == PathOf(f)
    {
      ListedPath(ls, d, x, e);
      ListedPath(ls, d, x, f);
      if PathOf(e) != PathOf(f) {
        NothingBelow(x, PathOf(e), PathOf(f));
      }
    }
  }

  // Values stand where x has them and objects where x has them.
  lemma SameShape(ls: seq<Entry>, d: seq<Entry>, x: map<string, Node>, q: Path)
    requires SoundDocument(x) && Flattens(d, x) && SameKeys(ls, d) && q != []
    ensures Expected(ls, q).IsValue? <==> At(x, q).IsValue?
    ensures Expected(ls, q).IsValue? ==> Entry(FlatKey(q), Expected(ls, q).v) in ls
    ensures Expected(ls, q).IsObject? <==> At(x, q).IsObject?
  {
    ListedPrefixFree(ls, d, x);
    ExpectedShape(ls, q);
    if Expected(ls, q).IsValue? {
      var e :| e in ls && PathOf(e) == q && e.value == Expected(ls, q).v;
      ListedPath(ls, d, x, e);
      assert e == Entry(FlatKey(q), e.value);
    }
    if At(x, q).IsValue? {
      ListedAt(ls, d, x, q);
    }
    if e :| e in ls && q < PathOf(e) {
      ListedPath(ls, d, x, e);
      NothingBelow(x, q, PathOf(e));
    }
    if At(x, q).IsObject? {
      var p := ValueBelow(x, q);
      ListedAt(ls, d, x, p);
    }
  }

  lemma ListedAt(ls: seq<Entry>, d: seq<Entry>, x: map<string, Node>, q: Path)
    requires SoundDocument(x) && Flattens(d, x) && SameKeys(ls, d) && q != [] && At(x, q).IsValue?
    ensures exists e :: e in ls && PathOf(e) == q && Here(ls, q, e.value)
  {
    KeyOfPath(x, q);
    assert Entry(FlatKey(q), At(x, q).v) in d;
    assert HasKey(d, FlatKey(q));
    var e :| e in ls && e.key == FlatKey(q);
    assert Here(ls, q, e.value);
  }

  /** No object is made an array: the container is chosen by the first name listed below it, and
      that name must not consist of digits. */
  ghost predicate ObjectsStay(ls: seq<Entry>) {
    forall i: nat, n: nat | i < |ls| && 0 < n < |PathOf(ls[i])| && FirstBelow(ls, i, PathOf(ls[i])[..n]) ::
        !IsIndex(PathOf(ls[i])[n])
  }

  ghost predicate FirstBelow(ls: seq<Entry>, i: nat, q: Path) {
    forall j | 0 <= j < i && j < |ls| :: !(q < PathOf(ls[j]))
  }

  // Entry i is the first below q, and makes the container there an array.
  ghost predicate MakesArray(ls: seq<Entry>, i: nat, q: Path) {
    i < |ls| && q < PathOf(ls[i]) && FirstBelow(ls, i, q) && IsIndex(PathOf(ls[i])[|q|])
  }

  ghost predicate SomeArray(ls: seq<Entry>, q: Path) {
    exists i: nat :: MakesArray(ls, i, q)
  }

  lemma FirstOfAll(front: seq<Entry>, last: Entry, q: Path)
    ensures FirstBelow(front + [last], |front|, q) <==> !Below(front, q)
  {
    var ls := front + [last];
    if e :| e in front && q < PathOf(e) {
      var j :| 0 <= j < |front| && front[j] == e;
      assert ls[j] == e;
    }
    forall j | 0 <= j < |front|
      ensures ls[j] in front
    {
      assert ls[j] == front[j];
    }
  }

  lemma MakesArraySnoc(front: seq<Entry>, last: Entry, i: nat, q: Path)
    requires i < |front|
    ensures MakesArray(front + [last], i, q) <==> MakesArray(front, i, q)
  {
    assert forall j | 0 <= j <= i :: (front + [last])[j] == front[j];
  }

  lemma SomeArraySnoc(front: seq<Entry>, last: Entry, q: Path)
    ensures SomeArray(front + [last], q)
        <==> SomeArray(front, q) || (!Below(front, q) && q < PathOf(last) && IsIndex(PathOf(last)[|q|]))
  {
    var ls := front + [last];
    FirstOfAll(front, last, q);
    assert ls[|front|] == last;
    if i: nat :| MakesArray(ls, i, q) {
      if i < |front| {
        MakesArraySnoc(front, last, i, q);
      }
    }
    if i: nat :| MakesArray(front, i, q) {
      MakesArraySnoc(front, last, i, q);
    }
    if !Below(front, q) && q < PathOf(last) && IsIndex(PathOf(last)[|q|]) {
      assert MakesArray(ls, |front|, q);
    }
  }

  lemma AfterArray(before: Stand, path: Path, v: FieldValue, q: Path)
    requires before.IsObject? ==> path != q && !(path < q)
    ensures After(before, path, v, q) == IsObject(true)
        <==> before == IsObject(true) || (!before.IsObject? && q < path && IsIndex(path[|q|]))
  {
  }

  lemma {:induction false} ExpectedArray(ls: seq<Entry>, q: Path)
    requires PrefixFree(ls) && OneValue(ls) && q != []
    ensures Expected(ls, q) == IsObject(true) <==> SomeArray(ls, q)
  {
    if ls != [] {
      var front, last := ls[..|ls| - 1], ls[|ls| - 1];
      assert ls == front + [last];
      SnocMembers(ls);
      ExpectedArray(front, q);
      ExpectedShape(front, q);
      AddedBelow(front, last, q);
      AfterArray(Expected(front, q), PathOf(last), last.value, q);
      SomeArraySnoc(front, last, q);
    }
  }

  lemma NoArrays(ls: seq<Entry>)
    requires PrefixFree(ls) && OneValue(ls)
    ensures ObjectsStay(ls) <==> forall q: Path | q != [] :: Expected(ls, q) != IsObject(true)
  {
    if ObjectsStay(ls) {
      forall q: Path | q != []
        ensures !SomeArray(ls, q)
      {
        forall i: nat | i < |ls| && q < PathOf(ls[i])
          ensures !MakesArray(ls, i, q)
        {
          assert PathOf(ls[i])[..|q|] == q;
        }
      }
      forall q: Path | q != []
        ensures Expected(ls, q) != IsObject(true)
      {
        ExpectedArray(ls, q);
      }
    } else {
      var i: nat, n: nat :| i < |ls| && 0 < n < |PathOf(ls[i])| && FirstBelow(ls, i, PathOf(ls[i])[..n])
          && IsIndex(PathOf(ls[i])[n]);
      assert MakesArray(ls, i, PathOf(ls[i])[..n]);
      ExpectedArray(ls, PathOf(ls[i])[..n]);
    }
  }

  /** Nesting undoes flattening: it never throws on the flat form of a document, and gives the
      document back exactly when no object becomes an array. */
  lemma UnflattenFlatten(ext: Extend, x: map<string, Node>, d: seq<Entry>)
    requires SoundDocument(x) && Flattens(d, x)
    ensures Unflattened(ext, d).Some?
    ensures Unflattened(ext, d) == Some(x) <==> ObjectsStay(d)
  {
    FlatOneValue(d, x);
    BackAt(ext, x, d, [""]);
    AllBack(ext, x, d);
    if ObjectsStay(d) {
      SameNode(Inner(false, Unflattened(ext, d).value), Inner(false, x));
    }
  }

  lemma FlatOneValue(d: seq<Entry>, x: map<string, Node>)
    requires SoundDocument(x) && Flattens(d, x)
    ensures OneValue(d)
  {
    forall e, f | e in d && f in d && e.key == f.key
      ensures e == f
    {
      EntryPath(d, x, e);
      EntryPath(d, x, f);
    }
  }

  lemma AllBack(ext: Extend, x: map<string, Node>, d: seq<Entry>)
    requires SoundDocument(x) && Flattens(d, x) && SameKeys(d, d) && Unflattened(ext, d).Some?
    ensures (forall q: Path | q != [] :: At(Unflattened(ext, d).value, q) == At(x, q)) <==> ObjectsStay(d)
  {
    ListedPrefixFree(d, d, x);
    NoArrays(d);
    if ObjectsStay(d) {
      forall q: Path | q != []
        ensures At(Unflattened(ext, d).value, q) == At(x, q)
      {
        BackAt(ext, x, d, q);
      }
    } else {
      var q: Path :| q != [] && Expected(d, q) == IsObject(true);
      BackAt(ext, x, d, q);
    }
  }

  lemma BackAt(ext: Extend, x: map<string, Node>, d: seq<Entry>, q: Path)
    requires SoundDocument(x) && Flattens(d, x) && SameKeys(d, d) && q != []
    ensures Unflattened(ext, d).Some?
    ensures At(Unflattened(ext, d).value, q) == At(x, q) <==> Expected(d, q) != IsObject(true)
  {
    ListedPrefixFree(d, d, x);
    UnflattenedAt(ext, d, q);
    SameShape(d, d, x, q);
    if Expected(d, q).IsValue? {
      EntryPath(d, x, Entry(FlatKey(q), Expected(d, q).v));
      KeyOfPath(x, q);
    } else if At(x, q) != Absent {
      SoundPath(x, q);
    }
  }

  /** Names without dots are not enough: {a: {"0": 1}} comes back with an array under a. */
  lemma ArrayUnderA(ext: Extend)
    ensures Unflattened(ext, [Entry("a.0", Num(1))]) == Some(map["a" := Inner(true, map["0" := Leaf(Num(1))])])
  {
    var path, below := ["a", "0"], map["0" := Leaf(Num(1))];
    SplitFirst("a", "0", '.');
    SplitFirst("0", "", '.');
    assert "a" + ['.'] + "0" == "a.0" && ["a"] + ["0"] == path;
    assert [Entry("a.0", Num(1))][..0] == [] && path[1..] == ["0"];
    assert Put(ext, map[], ["0"], Num(1)) == Some(below);
    assert IsIndex("0");
    assert Put(ext, map[], path, Num(1)) == Some(map["a" := Inner(true, below)]);
  }

  // Through the store.

  // A nested document, its flat form, the record stored for it and the order it is read in. All
  // keys are good, and a raw dollar key has no dot.
  ghost predicate Stores(sc: Schema, x: map<string, Node>, d: seq<Entry>, es: seq<Entry>, ls: seq<Entry>) {
    && ValidSchema(sc) && SoundDocument(x) && Flattens(d, x) && ValidDocument(sc, d) && d != []
    && Lists(es, Stored(sc, d)) && Lists(ls, Loaded(sc, es))
    && forall e | e in d :: KeyOk(sc, e.key) && (IsRaw(sc, e.key) ==> '.' !in e.key)
  }

  // What must stand at a path: the canonical form of x's value there, or what x has there.
  ghost function Canon(sc: Schema, x: map<string, Node>, d: seq<Entry>, q: Path): Stand
    requires Flattens(d, x) && AllValidated(sc, d) && q != []
  {
    match At(x, q)
    case IsValue(v) =>
      assert Entry(FlatKey(q), At(x, q).v) in d;
      IsValue(Fields.Canonical(KindOf(sc, FlatKey(q)), v))
    case other => other
  }

  ghost predicate NestedBack(sc: Schema, x: map<string, Node>, d: seq<Entry>, result: map<string, Node>)
    requires Flattens(d, x) && AllValidated(sc, d)
  {
    forall q: Path | q != [] :: At(result, q) == Canon(sc, x, d, q)
  }

  lemma StoredKeys(sc: Schema, x: map<string, Node>, d: seq<Entry>, es: seq<Entry>, ls: seq<Entry>)
    requires Stores(sc, x, d, es, ls)
    ensures SameKeys(ls, d)
  {
    forall e, f | e in ls && f in ls && e.key == f.key
      ensures e == f
    {
      assert e == Entry(e.key, e.value) && f == Entry(f.key, f.value);
    }
    forall k
      ensures HasKey(ls, k) <==> HasKey(d, k)
    {
      LoadedKey(sc, d, es, k);
      if e :| e in ls && e.key == k {
        assert e == Entry(k, e.value);
      }
      assert k in Loaded(sc, es) ==> Entry(k, Loaded(sc, es)[k]) in ls;
    }
  }

  // A raw key of the document is a value at its top.
  lemma RawAtTop(sc: Schema, x: map<string, Node>, d: seq<Entry>, es: seq<Entry>, ls: seq<Entry>, k: string)
    requires Stores(sc, x, d, es, ls) && HasKey(d, k) && IsRaw(sc, k)
    ensures k in x && x[k].Leaf? && FlatKey([k]) == k
  {
    var e :| e in d && e.key == k;
    SplitFirst(k, "", '.');
    EntryPath(d, x, e);
  }

  // The raw entries lie over the nested record.
  lemma OverlayAt(nested: map<string, Node>, raw: map<string, FieldValue>, q: Path)
    requires q != []
    ensures At(nested + AsLeaves(raw), q) ==
              if q[0] !in raw then At(nested, q) else if |q| == 1 then IsValue(raw[q[0]]) else Absent
  {
  }

  ghost function RawPart(es: seq<Entry>): map<string, FieldValue> {
    Write(map[], DollarEntries(es))
  }

  lemma ResultStand(sc: Schema, ext: Extend, es: seq<Entry>, ls: seq<Entry>, q: Path)
    requires q != [] && Unflattened(ext, ls).Some?
    ensures Result(sc, ext, es, ls).Some?
    ensures q[0] in RawPart(es) ==> q[0] in Unmapped(sc, es)
    ensures At(Result(sc, ext, es, ls).value, q) ==
              if q[0] !in RawPart(es) then At(Unflattened(ext, ls).value, q)
              else if |q| == 1 then IsValue(Unmapped(sc, es)[q[0]]) else Absent
  {
    OverlayAt(Unflattened(ext, ls).value, RawPart(es), q);
    WriteOver(Loaded(sc, es), DollarEntries(es));
  }

  // The raw part holds the raw keys of the document.
  lemma RawKey(sc: Schema, x: map<string, Node>, d: seq<Entry>, es: seq<Entry>, ls: seq<Entry>, k: string)
    requires Stores(sc, x, d, es, ls)
    ensures k in RawPart(es) <==> HasKey(d, k) && IsRaw(sc, k)
    ensures k in RawPart(es) ==> k in x && x[k].Leaf? && FlatKey([k]) == k
  {
    DollarKey(sc, d, es, k);
    if HasKey(d, k) && IsRaw(sc, k) {
      RawAtTop(sc, x, d, es, ls, k);
    }
  }

  // A key that is not raw is read only once.
  lemma ReadOnce(sc: Schema, x: map<string, Node>, d: seq<Entry>, es: seq<Entry>, ls: seq<Entry>, k: string)
    requires Stores(sc, x, d, es, ls) && HasKey(d, k) && !IsRaw(sc, k)
    ensures k in Loaded(sc, es) && k in Unmapped(sc, es) && Unmapped(sc, es)[k] == Loaded(sc, es)[k]
  {
    LoadedKey(sc, d, es, k);
    DollarKey(sc, d, es, k);
    WriteOver(Loaded(sc, es), DollarEntries(es));
  }

  // A value is read from the entry stored for it.
  lemma ValueStand(sc: Schema, ext: Extend, x: map<string, Node>, d: seq<Entry>, es: seq<Entry>, ls: seq<Entry>,
                   q: Path)
    requires Stores(sc, x, d, es, ls) && SameKeys(ls, d) && q != [] && At(x, q).IsValue? && Unflattened(ext, ls).Some?
    requires At(Unflattened(ext, ls).value, q) == Expected(ls, q)
    ensures Result(sc, ext, es, ls).Some? && Entry(FlatKey(q), At(x, q).v) in d
    ensures FlatKey(q) in Unmapped(sc, es)
    ensures At(Result(sc, ext, es, ls).value, q) == IsValue(Unmapped(sc, es)[FlatKey(q)])
  {
    assert Entry(FlatKey(q), At(x, q).v) in d;
    ResultStand(sc, ext, es, ls, q);
    RawKey(sc, x, d, es, ls, q[0]);
    if q[0] in RawPart(es) {
      assert q == [q[0]];
    } else {
      NestedStand(sc, x, d, es, ls, q);
    }
  }

  // A value that is not raw stands where it was nested.
  lemma NestedStand(sc: Schema, x: map<string, Node>, d: seq<Entry>, es: seq<Entry>, ls: seq<Entry>, q: Path)
    requires Stores(sc, x, d, es, ls) && SameKeys(ls, d) && q != [] && At(x, q).IsValue? && q[0] !in RawPart(es)
    ensures FlatKey(q) in Unmapped(sc, es) && Expected(ls, q) == IsValue(Unmapped(sc, es)[FlatKey(q)])
  {
    var k := FlatKey(q);
    assert Entry(k, At(x, q).v) in d;
    RawKey(sc, x, d, es, ls, k);
    KeyOfPath(x, q);
    if IsRaw(sc, k) {
      SplitFirst(k, "", '.');
    }
    SameShape(ls, d, x, q);
    ReadOnce(sc, x, d, es, ls, k);
  }

  lemma OtherStand(sc: Schema, ext: Extend, x: map<string, Node>, d: seq<Entry>, es: seq<Entry>, ls: seq<Entry>,
                   q: Path)
    requires Stores(sc, x, d, es, ls) && SameKeys(ls, d) && q != [] && !At(x, q).IsValue? && Unflattened(ext, ls).Some?
    requires At(Unflattened(ext, ls).value, q) == Expected(ls, q)
    ensures Result(sc, ext, es, ls).Some? && At(Result(sc, ext, es, ls).value, q) == Expected(ls, q)
  {
    ResultStand(sc, ext, es, ls, q);
    SameShape(ls, d, x, q);
    RawKey(sc, x, d, es, ls, q[0]);
  }

  // Nesting goes through, and puts at every path what the order of the entries makes of it.
  lemma NestedAt(sc: Schema, ext: Extend, x: map<string, Node>, d: seq<Entry>, es: seq<Entry>, ls: seq<Entry>, q: Path)
    requires Stores(sc, x, d, es, ls) && q != []
    ensures SameKeys(ls, d) && PrefixFree(ls)
    ensures Unflattened(ext, ls).Some? && At(Unflattened(ext, ls).value, q) == Expected(ls, q)
  {
    StoredKeys(sc, x, d, es, ls);
    ListedPrefixFree(ls, d, x);
    UnflattenedAt(ext, ls, q);
  }

  // A value comes back when it is in its domain.
  lemma ValueBack(sc: Schema, ext: Extend, x: map<string, Node>, d: seq<Entry>, es: seq<Entry>, ls: seq<Entry>, q: Path)
    requires Stores(sc, x, d, es, ls) && q != [] && At(x, q).IsValue?
    ensures Result(sc, ext, es, ls).Some? && Entry(FlatKey(q), At(x, q).v) in d
    ensures At(Result(sc, ext, es, ls).value, q) == Canon(sc, x, d, q) <==> ValueOk(sc, Entry(FlatKey(q), At(x, q).v))
  {
    var e := Entry(FlatKey(q), At(x, q).v);
    NestedAt(sc, ext, x, d, es, ls, q);
    ValueStand(sc, ext, x, d, es, ls, q);
    ResultAt(sc, d, es, e);
    ValueRoundTrip(sc, e);
  }

  // An object comes back when it stays one.
  lemma OtherBack(sc: Schema, ext: Extend, x: map<string, Node>, d: seq<Entry>, es: seq<Entry>, ls: seq<Entry>, q: Path)
    requires Stores(sc, x, d, es, ls) && q != [] && !At(x, q).IsValue?
    ensures Result(sc, ext, es, ls).Some?
    ensures At(Result(sc, ext, es, ls).value, q) == Canon(sc, x, d, q) <==> Expected(ls, q) != IsObject(true)
  {
    NestedAt(sc, ext, x, d, es, ls, q);
    OtherStand(sc, ext, x, d, es, ls, q);
    SameShape(ls, d, x, q);
    if At(x, q) != Absent {
      SoundPath(x, q);
    }
  }

  lemma ResultExists(sc: Schema, ext: Extend, x: map<string, Node>, d: seq<Entry>, es: seq<Entry>, ls: seq<Entry>)
    requires Stores(sc, x, d, es, ls)
    ensures Result(sc, ext, es, ls).Some? && SameKeys(ls, d) && PrefixFree(ls)
  {
    NestedAt(sc, ext, x, d, es, ls, [""]);
  }

  /** A nested document with good keys is read without a throw, and comes back nested as it was,
      every value in canonical form, exactly when every value lies in the exact domain of its
      field and, in the order it is read, no object is met first below a name of digits. */
  lemma NestedRoundTrip(sc: Schema, ext: Extend, x: map<string, Node>, d: seq<Entry>, es: seq<Entry>, ls: seq<Entry>)
    requires Stores(sc, x, d, es, ls)
    ensures Result(sc, ext, es, ls).Some?
    ensures NestedBack(sc, x, d, Result(sc, ext, es, ls).value)
        <==> ObjectsStay(ls) && forall e | e in d :: ValueOk(sc, e)
  {
    ResultExists(sc, ext, x, d, es, ls);
    NoArrays(ls);
    if !ObjectsStay(ls) {
      var q: Path :| q != [] && Expected(ls, q) == IsObject(true);
      SameShape(ls, d, x, q);
      OtherBack(sc, ext, x, d, es, ls, q);
    } else if e :| e in d && !ValueOk(sc, e) {
      EntryPath(d, x, e);
      assert e == Entry(FlatKey(PathOf(e)), At(x, PathOf(e)).v);
      ValueBack(sc, ext, x, d, es, ls, PathOf(e));
    } else {
      forall q: Path | q != []
        ensures At(Result(sc, ext, es, ls).value, q) == Canon(sc, x, d, q)
      {
        if At(x, q).IsValue? {
          ValueBack(sc, ext, x, d, es, ls, q);
        } else {
          OtherBack(sc, ext, x, d, es, ls, q);
        }
      }
    }
  }
}
