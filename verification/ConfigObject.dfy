/** The same writes on the mutable objects themselves: `setNested` and the walk of
    `_parseQueryParams` update nested objects in place. */
module ConfigObject {
  import opened ConfigTree
  import opened Texts

  datatype Entry<V> = Scalar(v: V) | Sub(o: Obj<V>)

  // What a write puts at the end of its path: a value or a new empty object.
  datatype Written<V> = Plain(v: V) | EmptyObject {
    function AsTree(): Tree<V> {
      if Plain? then Leaf(v) else Node(map[])
    }
  }

  class Obj<V> {
    var fields: map<string, Entry<V>>
    ghost var repr: set<Obj<V>>

    // Nested objects form a tree: no object is reached twice.
    ghost predicate Valid()
      reads this, repr
      decreases repr
    {
      && this in repr
      && (forall k | k in fields && fields[k].Sub? ::
            fields[k].o in repr && fields[k].o.repr <= repr && this !in fields[k].o.repr && fields[k].o.Valid())
      && (forall j, k | j in fields && k in fields && j != k && fields[j].Sub? && fields[k].Sub? ::
          fields[j].o.repr !! fields[k].o.repr)
    }

    // The configuration tree the object stands for.
    ghost function Model(): (t: Tree<V>)
      requires Valid()
      reads this, repr
      ensures t.Node? && t.children.Keys == fields.Keys
      decreases repr
    {
      Node(map k | k in fields :: if fields[k].Sub? then fields[k].o.Model() else Leaf(fields[k].v))
    }

    constructor ()
      ensures Valid() && fresh(repr) && repr == {this} && Model() == Node(map[])
    {
      fields, repr := map[], {this};
    }

    method PutScalar(key: string, value: V)
      requires Valid()
      modifies this`fields
      ensures Valid()
      ensures Model() == Node(old(Model()).children[key := Leaf(value)])
    {
      ghost var before := Model();
      fields := fields[key := Scalar(value)];
      assert Model().children == before.children[key := Leaf(value)];
    }

    method PutObject(key: string, next: Obj<V>)
      requires Valid() && next.Valid() && next.repr !! repr
      modifies this
      ensures Valid() && repr == old(repr) + next.repr
      ensures Model() == Node(old(Model()).children[key := old(next.Model())])
    {
      ghost var before, added := Model(), next.Model();
      fields := fields[key := Sub(next)];
      repr := repr + next.repr;
      assert Model().children == before.children[key := added];
    }

    method PutWritten(key: string, value: Written<V>)
      requires Valid()
      modifies this
      ensures Valid() && fresh(repr - old(repr))
      ensures Model() == Node(old(Model()).children[key := value.AsTree()])
    {
      match value
      case Plain(v) =>
        PutScalar(key, v);
      case EmptyObject =>
        var next := new Obj<V>();
        PutObject(key, next);
    }

    // The write below an existing object.
    method Descend(next: Obj<V>, path: Path, value: Written<V>)
      requires Valid() && |path| > 1 && path[0] in fields && fields[path[0]] == Sub(next)
      modifies repr
      ensures Valid() && fresh(repr - old(repr))
      ensures Model() == Node(old(Model()).children[path[0] := SetPath(old(next.Model()), path[1..], value.AsTree())])
      decreases |path|, 0
    {
      ghost var before := Model();
      next.SetNested(path[1..], value);
      repr := repr + next.repr;
      assert forall k | k in fields && k != path[0] && fields[k].Sub? ::
          fields[k].o.Valid() && fields[k].o.Model() == before.children[k];
      assert Valid();
      assert Model().children == before.children[path[0] := next.Model()];
    }

    // The loop that moves `current` down is the recursion over the rest of the path.
    method SetNested(path: Path, value: Written<V>)
      requires Valid() && path != []
      modifies repr
      ensures Valid() && fresh(repr - old(repr))
      ensures Model() == SetPath(old(Model()), path, value.AsTree())
      decreases |path|, 1
    {
      var key := path[0];
      if |path| == 1 {
        PutWritten(key, value);
      } else if key in fields && fields[key].Sub? {
        Descend(fields[key].o, path, value);
      } else {
        var next := new Obj<V>();
        next.SetNested(path[1..], value);
        PutObject(key, next);
      }
    }
  }

  // Every query parameter is written under its dotted key, in order.
  method ParseQueryParams(params: seq<Parameter>) returns (result: Obj<Coerced>)
    ensures result.Valid() && fresh(result.repr)
    ensures result.Model() == WriteAll(Assignments(params))
  {
    result := new Obj<Coerced>();
    for i := 0 to |params|
      invariant result.Valid() && fresh(result.repr)
      invariant result.Model() == WriteAll(Assignments(params[..i]))
    {
      NextParameter(params, i);
      result.SetNested(Split(params[i].key, '.'), Plain(Coerce(params[i].value)));
    }
    assert params[..|params|] == params;
  }
}
