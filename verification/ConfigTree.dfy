/** Nested configuration: dotted keys written into a tree (src/connection-string.class.ts,
    `setNested` in mcp/config.ts) and layers merged over each other (`deepMerge`, `resolveConfig`). */
module ConfigTree {
  import opened Options
  import opened Numerals
  import opened Texts

  // Objects are nodes; every other value, arrays included, is a leaf.
  datatype Tree<V> = Leaf(value: V) | Node(children: map<string, Tree<V>>)

  type Path = seq<string>

  function LeafAt<V>(t: Tree<V>, p: Path): Option<V> {
    match t
    case Leaf(v) => if p == [] then Some(v) else None
    case Node(children) => if p != [] && p[0] in children then LeafAt(children[p[0]], p[1..]) else None
  }

  // Writing at a path: a missing or scalar value on the way is replaced by an empty object.
  function SetPath<V>(t: Tree<V>, p: Path, value: Tree<V>): (t': Tree<V>)
    requires t.Node? && p != []
    ensures t'.Node?
    decreases |p|
  {
    if |p| == 1 then Node(t.children[p[0] := value])
    else
      var next := if p[0] in t.children && t.children[p[0]].Node? then t.children[p[0]] else Node(map[]);
      Node(t.children[p[0] := SetPath(next, p[1..], value)])
  }

  /** A write at p decides what is below p, removes any leaf above p, and leaves the rest. */
  lemma {:induction false} SetPathLaw<V>(t: Tree<V>, p: Path, value: Tree<V>, q: Path)
    requires t.Node? && p != []
    ensures LeafAt(SetPath(t, p, value), q) ==
              if p <= q then LeafAt(value, q[|p|..]) else if q < p then None else LeafAt(t, q)
    decreases |p|
  {
    if q != [] && q[0] == p[0] {
      if |p| == 1 {
        assert p <= q;
      } else {
        var next := if p[0] in t.children && t.children[p[0]].Node? then t.children[p[0]] else Node(map[]);
        SetPathLaw(next, p[1..], value, q[1..]);
        assert p <= q <==> p[1..] <= q[1..];
        assert q < p <==> q[1..] < p[1..];
        assert p <= q ==> q[1..][|p| - 1..] == q[|p|..];
      }
    }
  }

  datatype Assignment<V> = Assignment(path: Path, value: V)

  function WriteAll<V>(ws: seq<Assignment<V>>): (t: Tree<V>)
    requires forall w | w in ws :: w.path != []
    ensures t.Node?
  {
    if ws == [] then Node(map[])
    else SetPath(WriteAll(ws[..|ws| - 1]), ws[|ws| - 1].path, Leaf(ws[|ws| - 1].value))
  }

  predicate Comparable(p: Path, q: Path) {
    p <= q || q <= p
  }

  // The i-th write is at q, and no later write is at q, above it or below it.
  ghost predicate Stands<V>(ws: seq<Assignment<V>>, i: nat, q: Path, v: V) {
    && i < |ws| && ws[i].path == q && ws[i].value == v
    && forall j | i < j < |ws| :: !Comparable(ws[j].path, q)
  }

  /** The leaves of the finished tree, exactly: there is a leaf v at q if and only if some write
      put v at q and no later write touched q, anything above it or anything below it. */
  lemma {:induction false} WriteAllLeaves<V(!new)>(ws: seq<Assignment<V>>, q: Path, v: V)
    requires forall w | w in ws :: w.path != []
    ensures LeafAt(WriteAll(ws), q) == Some(v) <==> exists i: nat :: Stands(ws, i, q, v)
  {
    if ws != [] {
      var front, last := ws[..|ws| - 1], ws[|ws| - 1];
      WriteAllLeaves(front, q, v);
      SetPathLaw(WriteAll(front), last.path, Leaf(last.value), q);
      if Comparable(last.path, q) {
        if last.path == q && last.value == v {
          assert Stands(ws, |ws| - 1, q, v);
        }
        forall i: nat | Stands(ws, i, q, v)
          ensures i == |ws| - 1
        {
        }
      } else {
        if i: nat :| Stands(front, i, q, v) {
          assert front[i] == ws[i];
          assert Stands(ws, i, q, v);
        }
        if i: nat :| Stands(ws, i, q, v) {
          assert i < |front| && front[i] == ws[i];
          assert Stands(front, i, q, v);
        }
      }
    }
  }

  ghost predicate PrefixFree<V>(ws: seq<Assignment<V>>) {
    forall i, j | 0 <= i < |ws| && 0 <= j < |ws| && ws[i].path <= ws[j].path :: ws[i].path == ws[j].path
  }

  // The last value written at q.
  function LastWrite<V>(ws: seq<Assignment<V>>, q: Path): Option<V> {
    if ws == [] then None
    else if ws[|ws| - 1].path == q then Some(ws[|ws| - 1].value)
    else LastWrite(ws[..|ws| - 1], q)
  }

  /** When no key is a proper prefix of another, the leaf at every path is the last value
      written there, and a path never written has none. */
  lemma {:induction false} PrefixFreeWrites<V>(ws: seq<Assignment<V>>, q: Path)
    requires PrefixFree(ws) && forall w | w in ws :: w.path != []
    ensures LeafAt(WriteAll(ws), q) == LastWrite(ws, q)
  {
    if ws != [] {
      var front, last := ws[..|ws| - 1], ws[|ws| - 1];
      SetPathLaw(WriteAll(front), last.path, Leaf(last.value), q);
      if last.path != q {
        PrefixFreeWrites(front, q);
        if LastWrite(front, q).Some? {
          var i := WrittenAt(front, q);
          assert ws[i].path == q && ws[|ws| - 1] == last;
          assert !Comparable(last.path, q);
        }
      }
    }
  }

  lemma {:induction false} WrittenAt<V>(ws: seq<Assignment<V>>, q: Path) returns (i: nat)
    requires LastWrite(ws, q).Some?
    ensures i < |ws| && ws[i].path == q
  {
    if ws[|ws| - 1].path == q {
      i := |ws| - 1;
    } else {
      i := WrittenAt(ws[..|ws| - 1], q);
    }
  }

  // Query parameters of a connection string.

  // Decimal(t) is the number the fractional text t stands for.
  datatype Coerced = Flag(b: bool) | Whole(n: int) | Decimal(t: string) | Text(s: string)

  function Unsigned(value: string): string {
    if value != "" && value[0] == '-' then value[1..] else value
  }

  // /^\d+\.\d+$/
  predicate IsFraction(digits: string) {
    var parts := Split(digits, '.');
    |parts| == 2 && parts[0] != "" && parts[1] != "" && IsNumeral(parts[0], 10) && IsNumeral(parts[1], 10)
  }

  function Coerce(value: string): Coerced {
    var digits := Unsigned(value);
    if value == "true" then Flag(true)
    else if value == "false" then Flag(false)
    else if digits != ""
        && IsNumeral(digits, 10) then Whole(if digits == value then Value(digits, 10) else 0 - Value(digits, 10))
    else if IsFraction(digits) then Decimal(value)
    else Text(value)
  }

  /** Every integer written in decimal is coerced to itself. */
  lemma CoerceInteger(z: int)
    ensures Coerce(PrintInt(z, 10)).Whole? && Coerce(PrintInt(z, 10)).n == z
  {
    var n := if z < 0 then -z else z;
    PrintShape(n, 10);
    ValuePrint(n, 10);
    CoerceSigned(Print(n, 10), z < 0);
  }

  lemma CoerceSigned(digits: string, negative: bool)
    requires digits != "" && IsNumeral(digits, 10)
    ensures var c := Coerce(if negative then "-" + digits else digits);
      c.Whole? && c.n == if negative then 0 - Value(digits, 10) else Value(digits, 10)
  {
    assert ValueOf(digits[0]) < 10;
    if negative {
      assert Unsigned("-" + digits) == digits;
    } else {
      assert Unsigned(digits) == digits;
    }
  }

  // One or more decimal digits.
  predicate IsDecimals(s: string) {
    s != "" && IsNumeral(s, 10)
  }

  // The text, with or without a minus sign, is digits.
  ghost predicate IsWhole(value: string) {
    IsDecimals(value) || (value != "" && value[0] == '-' && IsDecimals(value[1..]))
  }

  // Digits, a dot and digits.
  ghost predicate Pointed(digits: string, a: string, b: string) {
    IsDecimals(a) && IsDecimals(b) && digits == a + "." + b
  }

  // The text, with or without a minus sign, is digits, a dot and digits.
  ghost predicate IsDecimal(value: string) {
    || (exists a, b :: Pointed(value, a, b))
    || (value != "" && value[0] == '-' && exists a, b :: Pointed(value[1..], a, b))
  }

  lemma FractionParts(digits: string)
    ensures IsFraction(digits) <==> exists a, b :: Pointed(digits, a, b)
  {
    if IsFraction(digits) {
      var parts := Split(digits, '.');
      JoinSplit(digits, '.');
      assert parts == [parts[0], parts[1]] && [parts[0], parts[1]][1..] == [parts[1]];
      assert Pointed(digits, parts[0], parts[1]);
    }
    if a, b :| Pointed(digits, a, b) {
      NumeralLacks(a, 10, '.');
      NumeralLacks(b, 10, '.');
      SplitFirst(a, b, '.');
      SplitFirst(b, "", '.');
      assert digits == a + ['.'] + b;
      assert Split(digits, '.') == [a] + [b];
    }
  }

  lemma UnsignedFraction(value: string)
    ensures IsDecimal(value) <==> IsFraction(Unsigned(value))
  {
    FractionParts(Unsigned(value));
    if a, b :| Pointed(value, a, b) {
      assert value[0] == a[0] && ValueOf('-') == 62;
    }
  }

  /** What a parameter's text becomes, whatever it is: the two words become truth values, digits
      with or without a minus sign their number, with a fraction the decimal they stand for, and
      everything else stays text. */
  lemma CoerceExact(value: string)
    ensures Coerce(value) == Flag(true) <==> value == "true"
    ensures Coerce(value) == Flag(false) <==> value == "false"
    ensures Coerce(value).Whole? <==> IsWhole(value)
    ensures Coerce(value).Whole? ==>
              Coerce(value).n == if value[0] == '-' then 0 - Value(value[1..], 10) else Value(value, 10)
    ensures Coerce(value).Decimal? <==> IsDecimal(value)
    ensures Coerce(value).Decimal? ==> Coerce(value).t == value
    ensures Coerce(value).Text? ==> Coerce(value).s == value
  {
    UnsignedFraction(value);
    if IsFraction(Unsigned(value)) {
      NumbersApart(Unsigned(value));
    }
    if value != "" && (value[0] == 't' || value[0] == 'f') {
      assert Unsigned(value) == value && ValueOf(value[0]) >= 10;
    }
  }

  // A fraction starts with a digit and is not digits throughout.
  lemma NumbersApart(digits: string)
    requires IsFraction(digits)
    ensures digits != "" && ValueOf(digits[0]) < 10 && !IsNumeral(digits, 10)
  {
    FractionParts(digits);
    var a, b :| Pointed(digits, a, b);
    assert digits[0] == a[0] && digits[|a|] == '.';
  }

  datatype Parameter = Parameter(key: string, value: string)

  function Assignments(params: seq<Parameter>): (ws: seq<Assignment<Coerced>>)
    ensures |ws| == |params|
    ensures forall w | w in ws :: w.path != []
    ensures forall i | 0 <= i < |params| :: ws[i] == Assignment(Split(params[i].key, '.'), Coerce(params[i].value))
  {
    if params == [] then []
    else
      var last := params[|params| - 1];
      Assignments(params[..|params| - 1]) + [Assignment(Split(last.key, '.'), Coerce(last.value))]
  }

  lemma NextParameter(params: seq<Parameter>, i: nat)
    requires i < |params|
    ensures WriteAll(Assignments(params[..i + 1]))
         == SetPath(WriteAll(Assignments(params[..i])), Split(params[i].key, '.'), Leaf(Coerce(params[i].value)))
  {
    assert params[..i + 1][..i] == params[..i];
    var ws, w := Assignments(params[..i]), Assignment(Split(params[i].key, '.'), Coerce(params[i].value));
    assert (ws + [w])[..|ws|] == ws;
  }

  lemma SplitInjective(a: string, b: string, sep: char)
    requires Split(a, sep) == Split(b, sep)
    ensures a == b
  {
    JoinSplit(a, sep);
    JoinSplit(b, sep);
  }

  // No parameter after the i-th has its key, a key above it or a key below it.
  ghost predicate Undisturbed(params: seq<Parameter>, i: nat)
    requires i < |params|
  {
    forall j | i < j < |params| :: !Comparable(Split(params[j].key, '.'), Split(params[i].key, '.'))
  }

  /** The last parameter with its key keeps its coerced value exactly when no later key lies
      above it or below it. */
  lemma ParameterKept(params: seq<Parameter>, i: nat)
    requires i < |params| && forall j | i < j < |params| :: params[j].key != params[i].key
    ensures LeafAt(WriteAll(Assignments(params)), Split(params[i].key, '.')) == Some(Coerce(params[i].value))
        <==> Undisturbed(params, i)
  {
    var ws, q, v := Assignments(params), Split(params[i].key, '.'), Coerce(params[i].value);
    WriteAllLeaves(ws, q, v);
    assert forall j | 0 <= j < |params| :: ws[j].path == Split(params[j].key, '.');
    if Undisturbed(params, i) {
      assert Stands(ws, i, q, v);
    }
    if k: nat :| Stands(ws, k, q, v) {
      SplitInjective(params[k].key, params[i].key, '.');
    }
  }

  // Layers.

  function Merge<V>(t: Tree<V>, s: Tree<V>): (r: Tree<V>)
    requires t.Node? && s.Node?
    ensures r.Node?
    decreases s
  {
    Node(map k | k in t.children.Keys + s.children.Keys ::
           if k in s.children then
             (if k in t.children && t.children[k].Node? && s.children[k].Node?
              then Merge(t.children[k], s.children[k]) else s.children[k])
           else t.children[k])
  }

  // The arguments stay as they are; a fresh result is filled key by key.
  method DeepMerge<V>(target: Tree<V>, source: Tree<V>) returns (result: Tree<V>)
    requires target.Node? && source.Node?
    ensures result == Merge(target, source)
    decreases source
  {
    var filled := target.children;
    var pending := source.children.Keys;
    while pending != {}
      invariant pending <= source.children.Keys
      invariant filled.Keys == target.children.Keys + (source.children.Keys - pending)
      invariant forall k | k in filled ::
          filled[k] == if k in pending
          || k !in source.children then target.children[k] else Merge(target, source).children[k]
    {
      var key :| key in pending;
      pending := pending - {key};
      var srcVal := source.children[key];
      if srcVal.Node? && key in filled && filled[key].Node? {
        var merged := DeepMerge(filled[key], srcVal);
        filled := filled[key := merged];
      } else {
        filled := filled[key := srcVal];
      }
    }
    result := Node(filled);
    assert filled == Merge(target, source).children;
  }

  // What a layer says about a path: nothing, a leaf, or something that rules a leaf there out.
  datatype Said<V> = Nothing | Gives(v: V) | NoLeaf

  function Says<V>(t: Tree<V>, p: Path): Said<V> {
    match t
    case Leaf(v) => if p == [] then Gives(v) else NoLeaf
    case Node(children) =>
      if p == [] then NoLeaf
      else if p[0] in children then Says(children[p[0]], p[1..])
      else Nothing
  }

  /** After a merge the upper layer decides every path it says anything about, and the lower
      layer decides the others. */
  lemma {:induction false} MergeLaw<V>(t: Tree<V>, s: Tree<V>, p: Path)
    requires t.Node? && s.Node?
    ensures LeafAt(Merge(t, s), p) ==
              match Says(s, p) { case Nothing => LeafAt(t, p) case Gives(v) => Some(v) case NoLeaf => None }
    decreases s
  {
    if p != [] && p[0] in s.children {
      var below := s.children[p[0]];
      LeafSays(below, p[1..]);
      if p[0] in t.children && t.children[p[0]].Node? && below.Node? {
        MergeLaw(t.children[p[0]], below, p[1..]);
      }
    }
  }

  lemma {:induction false} LeafSays<V>(t: Tree<V>, p: Path)
    ensures LeafAt(t, p) == match Says(t, p) { case Nothing => None case Gives(v) => Some(v) case NoLeaf => None }
    decreases t
  {
    if t.Node? && p != [] && p[0] in t.children {
      LeafSays(t.children[p[0]], p[1..]);
    }
  }

  // layers[0] below, the others merged over it in order.
  function Layered<V>(layers: seq<Tree<V>>): (t: Tree<V>)
    requires layers != [] && forall l | l in layers :: l.Node?
    ensures t.Node?
  {
    if |layers| == 1 then layers[0] else Merge(Layered(layers[..|layers| - 1]), layers[|layers| - 1])
  }

  lemma LayeredSnoc<V>(layers: seq<Tree<V>>, last: Tree<V>)
    requires layers != [] && last.Node? && forall l | l in layers :: l.Node?
    ensures Layered(layers + [last]) == Merge(Layered(layers), last)
  {
    assert (layers + [last])[..|layers|] == layers;
  }

  // Layer i gives the leaf v at p, and no layer above says anything about p.
  ghost predicate Decides<V>(layers: seq<Tree<V>>, i: nat, p: Path, v: V) {
    i < |layers| && Says(layers[i], p) == Gives(v) && forall j | i < j < |layers| :: Says(layers[j], p) == Nothing
  }

  /** The last layer wins: the layered configuration has the leaf v at p if and only if some
      layer gives it and no layer above says anything about p. */
  lemma {:induction false} LastLayerWins<V(!new)>(layers: seq<Tree<V>>, p: Path, v: V)
    requires layers != [] && forall l | l in layers :: l.Node?
    ensures LeafAt(Layered(layers), p) == Some(v) <==> exists i: nat :: Decides(layers, i, p, v)
    decreases |layers|
  {
    if |layers| == 1 {
      LeafSays(layers[0], p);
      if Says(layers[0], p) == Gives(v) {
        assert Decides(layers, 0, p, v);
      }
    } else {
      var front, last := layers[..|layers| - 1], layers[|layers| - 1];
      LastLayerWins(front, p, v);
      MergeLaw(Layered(front), last, p);
      if Says(last, p) == Nothing {
        if i: nat :| Decides(front, i, p, v) {
          assert front[i] == layers[i];
          assert Decides(layers, i, p, v);
        }
        if i: nat :| Decides(layers, i, p, v) {
          assert i < |front| && front[i] == layers[i];
          assert Decides(front, i, p, v);
        }
      } else {
        if Says(last, p) == Gives(v) {
          assert Decides(layers, |layers| - 1, p, v);
        }
        forall i: nat | Decides(layers, i, p, v)
          ensures i == |layers| - 1
        {
        }
      }
    }
  }

  /** Defaults, then the file, then the environment, then the caller's arguments, if any. */
  method ResolveConfig<V>(defaults: Tree<V>, file: Tree<V>, env: Tree<V>, toolArgs: Option<Tree<V>>)
    returns (config: Tree<V>)
    requires defaults.Node? && file.Node? && env.Node? && (toolArgs.Some? ==> toolArgs.value.Node?)
    ensures config == Layered([defaults, file, env] + (if toolArgs.Some? then [toolArgs.value] else []))
  {
    config := DeepMerge(defaults, file);
    config := DeepMerge(config, env);
    LayeredSnoc([defaults], file);
    LayeredSnoc([defaults, file], env);
    assert [defaults] + [file] == [defaults, file] && [defaults, file] + [env] == [defaults, file, env];
    if toolArgs.Some? {
      LayeredSnoc([defaults, file, env], toolArgs.value);
      config := DeepMerge(config, toolArgs.value);
    } else {
      assert [defaults, file, env] + [] == [defaults, file, env];
    }
  }

  // Associativity.

  // Merging c over a adds nothing of a: every entry of a is overridden.
  ghost predicate Covered<V>(a: Tree<V>, c: Tree<V>)
    requires a.Node? && c.Node?
    decreases c
  {
    forall k | k in a.children ::
      k in c.children && (a.children[k].Node? && c.children[k].Node? ==> Covered(a.children[k], c.children[k]))
  }

  lemma {:induction false} MergeCovered<V>(a: Tree<V>, c: Tree<V>)
    requires a.Node? && c.Node?
    ensures Merge(a, c) == c <==> Covered(a, c)
    decreases c
  {
    forall k | k in a.children && k in c.children && a.children[k].Node? && c.children[k].Node?
      ensures Merge(a.children[k], c.children[k]) == c.children[k] <==> Covered(a.children[k], c.children[k])
    {
      MergeCovered(a.children[k], c.children[k]);
    }
    var m := Merge(a, c);
    if Covered(a, c) {
      assert m.children == c.children;
    } else {
      var k :| k in a.children
          && !(k in c.children
          && (a.children[k].Node? && c.children[k].Node? ==> Covered(a.children[k], c.children[k])));
      assert k in m.children && (k in c.children ==> m.children[k] != c.children[k]);
    }
  }

  // Somewhere the middle layer has a scalar where the lower and the upper one have objects,
  // and the lower object holds something the upper one does not override.
  ghost predicate Resurrects<V>(a: Tree<V>, b: Tree<V>, c: Tree<V>)
    requires a.Node? && b.Node? && c.Node?
    decreases c, 1
  {
    exists k | k in c.children :: ResurrectsAt(a, b, c, k)
  }

  ghost predicate ResurrectsAt<V>(a: Tree<V>, b: Tree<V>, c: Tree<V>, k: string)
    requires a.Node? && b.Node? && c.Node?
    decreases c, 0
  {
    k in a.children && k in b.children && k in c.children && a.children[k].Node? && c.children[k].Node?
    && (if b.children[k].Node? then Resurrects(a.children[k], b.children[k], c.children[k])
        else !Covered(a.children[k], c.children[k]))
  }

  // One key of the two results.
  lemma {:induction false} MergeAssociativeAt<V>(a: Tree<V>, b: Tree<V>, c: Tree<V>, k: string)
    requires a.Node? && b.Node? && c.Node?
    requires k in a.children || k in b.children || k in c.children
    ensures Merge(Merge(a, b), c).children[k] == Merge(a, Merge(b, c)).children[k] <==> !ResurrectsAt(a, b, c, k)
    decreases c, 0
  {
    if k in a.children && k in b.children && k in c.children && a.children[k].Node? && c.children[k].Node? {
      if b.children[k].Node? {
        MergeAssociative(a.children[k], b.children[k], c.children[k]);
      } else {
        MergeCovered(a.children[k], c.children[k]);
      }
    }
  }

  /** Merging is associative on three layers exactly unless the middle one hides part of the
      lower one behind a scalar that the upper one turns into an object again. */
  lemma {:induction false} MergeAssociative<V>(a: Tree<V>, b: Tree<V>, c: Tree<V>)
    requires a.Node? && b.Node? && c.Node?
    ensures Merge(Merge(a, b), c) == Merge(a, Merge(b, c)) <==> !Resurrects(a, b, c)
    decreases c, 1
  {
    var left, right := Merge(Merge(a, b), c), Merge(a, Merge(b, c));
    assert left.children.Keys == right.children.Keys;
    forall k | k in left.children
      ensures left.children[k] == right.children[k] <==> !ResurrectsAt(a, b, c, k)
    {
      MergeAssociativeAt(a, b, c, k);
    }
    if Resurrects(a, b, c) {
      var k :| k in c.children && ResurrectsAt(a, b, c, k);
      assert left.children[k] != right.children[k];
    } else {
      assert left.children == right.children;
    }
  }
}
