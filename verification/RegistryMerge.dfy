/** Registries of concurrent writers, merged when the metadata is uploaded under the lock
    (src/database/database-metadata.class.ts). A real history is not one line of steps: writers
    start from the same stored registry, step on their own, and what they upload is merged. */
module RegistryMerge {
  import opened Options
  import opened Numerals
  import opened Registry
  import opened RegistryRuns

  // A JavaScript Map by index: setting a present index replaces its record in place.
  function Put(acc: seq<Burned<nat>>, b: Burned<nat>): seq<Burned<nat>> {
    if acc == [] then [b]
    else if acc[0].index == b.index then [b] + acc[1..]
    else [acc[0]] + Put(acc[1..], b)
  }

  function PutAll(bs: seq<Burned<nat>>): seq<Burned<nat>> {
    if bs == [] then [] else Put(PutAll(bs[..|bs| - 1]), bs[|bs| - 1])
  }

  function AddMissing(acc: seq<Burned<nat>>, bs: seq<Burned<nat>>): seq<Burned<nat>> {
    if bs == [] then acc
    else
      var front, last := AddMissing(acc, bs[..|bs| - 1]), bs[|bs| - 1];
      if IsBurned(front, last.index) then front else front + [last]
  }

  function MergedIndex(latest: map<string, nat>, local: map<string, nat>, a: string): nat
    requires a in latest || a in local
  {
    if a !in local || (a in latest && latest[a] >= local[a]) then latest[a] else local[a]
  }

  function Merge(latest: SchemaRegistry, local: SchemaRegistry): SchemaRegistry {
    SchemaRegistry(
      if latest.nextIndex >= local.nextIndex then latest.nextIndex else local.nextIndex,
      map a | a in latest.mapping.Keys + local.mapping.Keys :: MergedIndex(latest.mapping, local.mapping, a),
      AddMissing(PutAll(latest.burned), local.burned))
  }

  method MergeMapping(latest: map<string, nat>, local: map<string, nat>) returns (merged: map<string, nat>)
    ensures merged == map a | a in latest.Keys + local.Keys :: MergedIndex(latest, local, a)
  {
    merged := latest;
    var pending := local.Keys;
    ghost var done := {};
    while pending != {}
      invariant pending == local.Keys - done && done <= local.Keys
      invariant merged.Keys == latest.Keys + done
      invariant forall a | a in merged :: merged[a] == if a in done then MergedIndex(latest, local, a) else latest[a]
    {
      var attr :| attr in pending;
      pending, done := pending - {attr}, done + {attr};
      if attr !in merged || merged[attr] < local[attr] {
        merged := merged[attr := local[attr]];
      }
    }
  }

  method MergeBurned(latest: seq<Burned<nat>>, local: seq<Burned<nat>>) returns (burned: seq<Burned<nat>>)
    ensures burned == AddMissing(PutAll(latest), local)
  {
    burned := [];
    for i := 0 to |latest|
      invariant burned == PutAll(latest[..i])
    {
      assert latest[..i + 1][..i] == latest[..i];
      burned := Put(burned, latest[i]);
    }
    assert latest[..|latest|] == latest;
    for i := 0 to |local|
      invariant burned == AddMissing(PutAll(latest), local[..i])
    {
      assert local[..i + 1][..i] == local[..i];
      if !IsBurned(burned, local[i].index) {
        burned := burned + [local[i]];
      }
    }
    assert local[..|local|] == local;
  }

  method MergeSchemaRegistry(latest: Option<SchemaRegistry>, local: Option<SchemaRegistry>)
    returns (merged: Option<SchemaRegistry>)
    ensures merged == if latest.None? then local else if local.None? then latest
        else Some(Merge(latest.value, local.value))
  {
    if latest.None? {
      return local;
    }
    if local.None? {
      return latest;
    }
    var mapping := MergeMapping(latest.value.mapping, local.value.mapping);
    var burned := MergeBurned(latest.value.burned, local.value.burned);
    var nextIndex := if latest.value.nextIndex >= local.value.nextIndex then latest.value.nextIndex
        else local.value.nextIndex;
    merged := Some(SchemaRegistry(nextIndex, mapping, burned));
  }

  // What a merge keeps.

  lemma {:induction false} PutFacts(acc: seq<Burned<nat>>, b: Burned<nat>)
    ensures forall x | x in Put(acc, b) :: x == b || x in acc
    ensures forall x | x in acc && x.index != b.index :: x in Put(acc, b)
    ensures b in Put(acc, b)
  {
    if acc != [] {
      assert acc == [acc[0]] + acc[1..];
      PutFacts(acc[1..], b);
    }
  }

  // Burned, in terms of membership.
  lemma BurnedMember(bs: seq<Burned<nat>>, i: nat)
    ensures IsBurned(bs, i) <==> exists b :: b in bs && b.index == i
  {
    if b :| b in bs && b.index == i {
      var k :| 0 <= k < |bs| && bs[k] == b;
    }
  }

  lemma {:induction false} PutAllFacts(bs: seq<Burned<nat>>, i: nat)
    ensures forall x | x in PutAll(bs) :: x in bs
    ensures IsBurned(PutAll(bs), i) <==> IsBurned(bs, i)
  {
    BurnedMember(bs, i);
    BurnedMember(PutAll(bs), i);
    if bs != [] {
      var front, last := bs[..|bs| - 1], bs[|bs| - 1];
      assert bs == front + [last];
      PutAllFacts(front, i);
      PutFacts(PutAll(front), last);
      BurnedMember(front, i);
      BurnedMember(PutAll(front), i);
    }
  }

  lemma {:induction false} AddMissingFacts(acc: seq<Burned<nat>>, bs: seq<Burned<nat>>, i: nat)
    ensures forall x | x in AddMissing(acc, bs) :: x in acc || x in bs
    ensures IsBurned(AddMissing(acc, bs), i) <==> IsBurned(acc, i) || IsBurned(bs, i)
  {
    if bs != [] {
      var front, last := bs[..|bs| - 1], bs[|bs| - 1];
      assert bs == front + [last];
      AddMissingFacts(acc, front, i);
      BurnedAppend(AddMissing(acc, front), last);
      BurnedAppend(front, last);
    }
  }

  lemma MergedBurned(latest: SchemaRegistry, local: SchemaRegistry, i: nat)
    ensures forall x | x in Merge(latest, local).burned :: x in latest.burned || x in local.burned
    ensures IsBurned(Merge(latest, local).burned, i) <==> IsBurned(latest.burned, i) || IsBurned(local.burned, i)
  {
    PutAllFacts(latest.burned, i);
    AddMissingFacts(PutAll(latest.burned), local.burned, i);
  }

  // x is the last record of bs for its index.
  ghost predicate LastFor(bs: seq<Burned<nat>>, x: Burned<nat>) {
    exists k :: 0 <= k < |bs| && bs[k] == x && forall j | k < j < |bs| :: bs[j].index != x.index
  }

  // x is the first record of bs for its index.
  ghost predicate FirstFor(bs: seq<Burned<nat>>, x: Burned<nat>) {
    exists k :: 0 <= k < |bs| && bs[k] == x && forall j | 0 <= j < k :: bs[j].index != x.index
  }

  ghost predicate OneRecordEach(bs: seq<Burned<nat>>) {
    forall j, k | 0 <= j < k < |bs| :: bs[j].index != bs[k].index
  }

  lemma {:induction false} PutOne(acc: seq<Burned<nat>>, b: Burned<nat>)
    requires OneRecordEach(acc)
    ensures OneRecordEach(Put(acc, b))
    ensures forall x | x in Put(acc, b) :: x == b || (x in acc && x.index != b.index)
  {
    if acc != [] {
      assert acc == [acc[0]] + acc[1..];
      PutOne(acc[1..], b);
      if acc[0].index != b.index {
        forall x | x in Put(acc[1..], b)
          ensures x.index != acc[0].index
        {
        }
      }
    }
  }

  lemma LastForSnoc(bs: seq<Burned<nat>>, last: Burned<nat>, x: Burned<nat>)
    ensures LastFor(bs + [last], last)
    ensures LastFor(bs, x) && x.index != last.index ==> LastFor(bs + [last], x)
  {
    assert (bs + [last])[|bs|] == last;
    if LastFor(bs, x) && x.index != last.index {
      var k :| 0 <= k < |bs| && bs[k] == x && forall j | k < j < |bs| :: bs[j].index != x.index;
      assert (bs + [last])[k] == x;
    }
  }

  lemma {:induction false} PutAllLast(bs: seq<Burned<nat>>, x: Burned<nat>)
    ensures OneRecordEach(PutAll(bs))
    ensures x in PutAll(bs) ==> LastFor(bs, x)
  {
    if bs != [] {
      var front, last := bs[..|bs| - 1], bs[|bs| - 1];
      assert bs == front + [last];
      PutAllLast(front, x);
      PutOne(PutAll(front), last);
      LastForSnoc(front, last, x);
    }
  }

  lemma FirstForSnoc(bs: seq<Burned<nat>>, last: Burned<nat>, x: Burned<nat>)
    ensures FirstFor(bs, x) ==> FirstFor(bs + [last], x)
    ensures !IsBurned(bs, last.index) ==> FirstFor(bs + [last], last)
  {
    if FirstFor(bs, x) {
      var k :| 0 <= k < |bs| && bs[k] == x && forall j | 0 <= j < k :: bs[j].index != x.index;
      assert (bs + [last])[k] == x;
    }
    if !IsBurned(bs, last.index) {
      assert (bs + [last])[|bs|] == last;
    }
  }

  lemma {:induction false} AddMissingFirst(acc: seq<Burned<nat>>, bs: seq<Burned<nat>>, x: Burned<nat>)
    requires x in AddMissing(acc, bs)
    ensures x in acc || (!IsBurned(acc, x.index) && FirstFor(bs, x))
  {
    if bs != [] {
      var front, last := bs[..|bs| - 1], bs[|bs| - 1];
      assert bs == front + [last];
      AddMissingFacts(acc, front, last.index);
      FirstForSnoc(front, last, x);
      if x in AddMissing(acc, front) {
        AddMissingFirst(acc, front, x);
      }
    }
  }

  lemma {:induction false} AddMissingDistinct(acc: seq<Burned<nat>>, bs: seq<Burned<nat>>)
    requires OneRecordEach(acc)
    ensures OneRecordEach(AddMissing(acc, bs))
  {
    if bs != [] {
      AddMissingDistinct(acc, bs[..|bs| - 1]);
    }
  }

  /** The merge, exactly: the greater counter; of every attribute either side has, the greater
      index; and one record for every index burned on a side, the last one of the stored registry if
      that has any, otherwise the first one of the writer's. */
  lemma MergeExact(latest: SchemaRegistry, local: SchemaRegistry, a: string, x: Burned<nat>)
    ensures var merged := Merge(latest, local);
      && merged.nextIndex >= latest.nextIndex && merged.nextIndex >= local.nextIndex
      && (merged.nextIndex == latest.nextIndex || merged.nextIndex == local.nextIndex)
      && (a in merged.mapping <==> a in latest.mapping || a in local.mapping)
      && (a in latest.mapping ==> latest.mapping[a] <= merged.mapping[a])
      && (a in local.mapping ==> local.mapping[a] <= merged.mapping[a])
      && (a in merged.mapping ==> || (a in latest.mapping && merged.mapping[a] == latest.mapping[a])
                                  || (a in local.mapping && merged.mapping[a] == local.mapping[a]))
      && OneRecordEach(merged.burned)
      && (IsBurned(merged.burned, x.index) <==> IsBurned(latest.burned, x.index) || IsBurned(local.burned, x.index))
      && (x in merged.burned ==>
          if IsBurned(latest.burned, x.index) then LastFor(latest.burned, x) else FirstFor(local.burned, x))
  {
    PutAllLast(latest.burned, x);
    AddMissingDistinct(PutAll(latest.burned), local.burned);
    if x in Merge(latest, local).burned {
      AddMissingFirst(PutAll(latest.burned), local.burned, x);
    }
    PutAllFacts(latest.burned, x.index);
    MergedBurned(latest, local, x.index);
    if x in PutAll(latest.burned) {
      BurnedMember(PutAll(latest.burned), x.index);
    }
  }

  /** A merge invents no owner. */
  lemma MergeOwners(latest: SchemaRegistry, local: SchemaRegistry, a: string, i: nat)
    requires Owns(Merge(latest, local), a, i)
    ensures Owns(latest, a, i) || Owns(local, a, i)
  {
    MergedBurned(latest, local, i);
  }

  // Whatever either side used lies below the merged counter.
  lemma MergeCounter(latest: SchemaRegistry, local: SchemaRegistry)
    ensures NextFree(latest) <= NextFree(Merge(latest, local)) && NextFree(local) <= NextFree(Merge(latest, local))
  {
    UsedBelowMerged(latest, local, latest);
    UsedBelowMerged(latest, local, local);
  }

  lemma UsedBelowMerged(latest: SchemaRegistry, local: SchemaRegistry, side: SchemaRegistry)
    requires side == latest || side == local
    ensures NextFree(side) <= NextFree(Merge(latest, local))
  {
    var merged := Merge(latest, local);
    forall i: nat | Used(side, i)
      ensures i < NextFree(merged)
    {
      MergedBurned(latest, local, i);
      if a :| a in side.mapping && side.mapping[a] == i {
        assert Used(merged, merged.mapping[a]);
      } else {
        assert Used(merged, i);
      }
    }
  }

  // Histories: each event makes one new registry out of earlier ones.

  datatype Event = Revise(parent: nat, keys: seq<string>) | Upload(latest: nat, local: nat)

  ghost predicate Happens(s: seq<SchemaRegistry>, e: Event, i: nat)
    requires i + 1 < |s|
  {
    match e
    case Revise(parent, keys) => parent <= i && Step(s[parent], keys, s[i + 1])
    case Upload(latest, local) => latest <= i && local <= i && s[i + 1] == Merge(s[latest], s[local])
  }

  // s[0] is where every writer starts; event i makes s[i + 1].
  ghost predicate History(s: seq<SchemaRegistry>, es: seq<Event>) {
    && |s| == |es| + 1
    && forall i: nat | i < |es| :: Happens(s, es[i], i)
  }

  // Revision i gives attribute a the new index n.
  ghost predicate HandsOut(s: seq<SchemaRegistry>, es: seq<Event>, i: nat, a: string, n: nat)
    requires History(s, es)
  {
    i < |es| && es[i].Revise? && a in es[i].keys && a !in s[es[i].parent].mapping && a in s[i + 1].mapping
        && s[i + 1].mapping[a] == n
  }

  lemma HandedIsNew(s: seq<SchemaRegistry>, es: seq<Event>, i: nat, a: string, n: nat)
    requires History(s, es) && HandsOut(s, es, i, a, n)
    ensures Owns(s[i + 1], a, n) && NextFree(s[es[i].parent]) <= n < NextFree(s[i + 1])
  {
    assert Happens(s, es[i], i);
    StepFacts(s[es[i].parent], es[i].keys, s[i + 1]);
  }

  /** Every owner was there at the start or was handed its index by a revision. */
  lemma {:induction false} OwnerOrigin(s: seq<SchemaRegistry>, es: seq<Event>, j: nat, a: string, n: nat)
    requires History(s, es) && j < |s| && Owns(s[j], a, n)
    ensures Owns(s[0], a, n) || exists i: nat :: i < j && HandsOut(s, es, i, a, n)
  {
    if j > 0 {
      assert Happens(s, es[j - 1], j - 1);
      match es[j - 1]
      case Revise(parent, keys) =>
        StepOwners(s[parent], keys, s[j], a, n);
        if Owns(s[parent], a, n) {
          OwnerOrigin(s, es, parent, a, n);
        } else {
          FreshIsNew(s[parent], keys, s[j], a);
          assert HandsOut(s, es, j - 1, a, n);
        }
      case Upload(latest, local) =>
        MergeOwners(s[latest], s[local], a, n);
        if Owns(s[latest], a, n) {
          OwnerOrigin(s, es, latest, a, n);
        } else {
          OwnerOrigin(s, es, local, a, n);
        }
    }
  }

  // Registry x went into registry y.
  ghost predicate Ancestor(es: seq<Event>, x: nat, y: nat)
    requires y <= |es|
    decreases y
  {
    || x == y
    || (y > 0 && match es[y - 1]
                 case Revise(parent, _) => parent < y && Ancestor(es, x, parent)
                 case Upload(latest, local) =>
                   (latest < y && Ancestor(es, x, latest)) || (local < y && Ancestor(es, x, local)))
  }

  lemma {:induction false} CounterInherited(s: seq<SchemaRegistry>, es: seq<Event>, x: nat, y: nat)
    requires History(s, es) && y < |s| && Ancestor(es, x, y)
    ensures x <= y && NextFree(s[x]) <= NextFree(s[y])
    decreases y
  {
    if x != y {
      assert Happens(s, es[y - 1], y - 1);
      match es[y - 1]
      case Revise(parent, keys) =>
        CounterInherited(s, es, x, parent);
        StepFacts(s[parent], keys, s[y]);
      case Upload(latest, local) =>
        MergeCounter(s[latest], s[local]);
        if Ancestor(es, x, latest) {
          CounterInherited(s, es, x, latest);
        } else {
          CounterInherited(s, es, x, local);
        }
    }
  }

  lemma {:induction false} StartIsAncestor(s: seq<SchemaRegistry>, es: seq<Event>, y: nat)
    requires History(s, es) && y < |s|
    ensures Ancestor(es, 0, y)
  {
    if y > 0 {
      assert Happens(s, es[y - 1], y - 1);
      StartIsAncestor(s, es, if es[y - 1].Revise? then es[y - 1].parent else es[y - 1].latest);
    }
  }

  // Two revisions neither of which knew of the other.
  ghost predicate Concurrent(es: seq<Event>, i: nat, k: nat) {
    && i < |es| && k < |es| && i != k && es[i].Revise? && es[k].Revise?
    && es[i].parent <= |es| && es[k].parent <= |es|
    && !Ancestor(es, i + 1, es[k].parent) && !Ancestor(es, k + 1, es[i].parent)
  }

  // They gave one new index to two attributes.
  ghost predicate Collision(s: seq<SchemaRegistry>, es: seq<Event>, i: nat, k: nat, a: string, b: string, n: nat)
    requires History(s, es)
  {
    a != b && Concurrent(es, i, k) && HandsOut(s, es, i, a, n) && HandsOut(s, es, k, b, n)
  }

  // A revision that knew of another gives out greater indices.
  lemma InheritedIsOther(s: seq<SchemaRegistry>, es: seq<Event>, i: nat, k: nat, a: string, b: string, n: nat)
    requires History(s, es) && HandsOut(s, es, i, a, n) && HandsOut(s, es, k, b, n) && es[k].parent <= |es|
    ensures !Ancestor(es, i + 1, es[k].parent)
  {
    HandedIsNew(s, es, i, a, n);
    HandedIsNew(s, es, k, b, n);
    if Ancestor(es, i + 1, es[k].parent) {
      CounterInherited(s, es, i + 1, es[k].parent);
    }
  }

  lemma SameHandout(s: seq<SchemaRegistry>, es: seq<Event>, i: nat, k: nat, a: string, b: string, n: nat)
    requires History(s, es) && HandsOut(s, es, i, a, n) && HandsOut(s, es, k, b, n)
    ensures a == b || Collision(s, es, i, k, a, b, n)
  {
    HandedIsNew(s, es, i, a, n);
    HandedIsNew(s, es, k, b, n);
    assert Happens(s, es[i], i) && Happens(s, es[k], k);
    if i == k {
      AllocateFacts(Start(s[es[i].parent]), es[i].keys);
    } else {
      InheritedIsOther(s, es, i, k, a, b, n);
      InheritedIsOther(s, es, k, i, b, a, n);
    }
  }

  /** Over any history of revisions and merges no index is ever owned by two attributes, exactly
      when none is at the start and no two concurrent revisions gave a new index to two. */
  lemma HistoryNeverReuses(s: seq<SchemaRegistry>, es: seq<Event>)
    requires History(s, es)
    ensures NeverReused(s) <==> Unambiguous(s[0]) && !exists i, k, a, b, n :: Collision(s, es, i, k, a, b, n)
  {
    if i, k, a, b, n :| Collision(s, es, i, k, a, b, n) {
      HandedIsNew(s, es, i, a, n);
      HandedIsNew(s, es, k, b, n);
      assert Owns(s[i + 1], a, n) && Owns(s[k + 1], b, n);
    } else if Unambiguous(s[0]) {
      forall i, j, a, b, n | 0 <= i < |s| && 0 <= j < |s| && Owns(s[i], a, n) && Owns(s[j], b, n)
        ensures a == b
      {
        OneOwner(s, es, i, j, a, b, n);
      }
    }
  }

  lemma OneOwner(s: seq<SchemaRegistry>, es: seq<Event>, i: nat, j: nat, a: string, b: string, n: nat)
    requires History(s, es) && Unambiguous(s[0]) && !exists i, k, a, b, n :: Collision(s, es, i, k, a, b, n)
    requires i < |s| && j < |s| && Owns(s[i], a, n) && Owns(s[j], b, n)
    ensures a == b
  {
    OwnerOrigin(s, es, i, a, n);
    OwnerOrigin(s, es, j, b, n);
    if Owns(s[0], a, n) {
      if !Owns(s[0], b, n) {
        var k: nat :| k < j && HandsOut(s, es, k, b, n);
        NotHandedAgain(s, es, k, a, b, n);
      }
    } else if Owns(s[0], b, n) {
      var k: nat :| k < i && HandsOut(s, es, k, a, n);
      NotHandedAgain(s, es, k, b, a, n);
    } else {
      var h: nat :| h < i && HandsOut(s, es, h, a, n);
      var k: nat :| k < j && HandsOut(s, es, k, b, n);
      SameHandout(s, es, h, k, a, b, n);
    }
  }

  // An index owned at the start is never handed out.
  lemma NotHandedAgain(s: seq<SchemaRegistry>, es: seq<Event>, k: nat, a: string, b: string, n: nat)
    requires History(s, es) && Owns(s[0], a, n)
    ensures !HandsOut(s, es, k, b, n)
  {
    if HandsOut(s, es, k, b, n) {
      HandedIsNew(s, es, k, b, n);
      assert Happens(s, es[k], k);
      StartIsAncestor(s, es, es[k].parent);
      CounterInherited(s, es, 0, es[k].parent);
      OwnedIsUsed(s[0], a, n);
    }
  }

  /** Read safety in a history: a key written for a under registry j and resolved by the schema
      of any revision comes back as a exactly when a has that index there; otherwise it comes
      back as the bare key. So it is never read as another attribute, unless one bears that name. */
  lemma HistoryReadSafety(s: seq<SchemaRegistry>, es: seq<Event>, j: nat, k: nat, a: string)
    requires History(s, es) && NeverReused(s) && j < |s| && a in s[j].mapping && k < |es| && es[k].Revise?
    ensures forall b | b in es[k].keys :: b in s[k + 1].mapping
    ensures var key, reversed := WrittenKey(s[j], a), Reverse(KeyTexts(s[k + 1].mapping, es[k].keys), es[k].keys);
      Resolve(reversed, key) == if a != "" && a in es[k].keys && s[k + 1].mapping[a] == s[j].mapping[a] then a else key
  {
    assert Happens(s, es[k], k);
    StepFacts(s[es[k].parent], es[k].keys, s[k + 1]);
    var n, key := s[j].mapping[a], WrittenKey(s[j], a);
    var texts := KeyTexts(s[k + 1].mapping, es[k].keys);
    var reversed := Reverse(texts, es[k].keys);
    ReverseFacts(texts, es[k].keys);
    if key in reversed {
      var b := reversed[key];
      PrintInjective(s[k + 1].mapping[b], n, 36);
      assert Owns(s[k + 1], b, n) && Owns(s[j], a, n);
      assert a == b;
    }
  }

  // How an index survives.

  // Registry y was made from registry x by an event that keeps a's index: a revision that lists
  // a, or a merge whose other side gives a no greater index.
  ghost predicate Passes(s: seq<SchemaRegistry>, es: seq<Event>, x: nat, y: nat, a: string)
    requires History(s, es)
  {
    && x < |s| && 0 < y <= |es| && a in s[x].mapping
    && match es[y - 1]
       case Revise(parent, keys) => x == parent && a in keys
       case Upload(latest, local) =>
         || (x == latest && local < |s| && (a in s[local].mapping ==> s[local].mapping[a] <= s[x].mapping[a]))
         || (x == local && latest < |s| && (a in s[latest].mapping ==> s[latest].mapping[a] <= s[x].mapping[a]))
  }

  ghost predicate Chain(s: seq<SchemaRegistry>, es: seq<Event>, path: seq<nat>, a: string)
    requires History(s, es)
  {
    && path != [] && path[0] < |s|
    && forall i | 0 <= i < |path| - 1 :: Passes(s, es, path[i], path[i + 1], a)
  }

  // a has index n at registry x, given to it there or at the start of the history.
  ghost predicate Origin(s: seq<SchemaRegistry>, es: seq<Event>, x: nat, a: string, n: nat)
    requires History(s, es)
  {
    && x < |s| && a in s[x].mapping && s[x].mapping[a] == n
    && (x > 0 ==> HandsOut(s, es, x - 1, a, n))
  }

  ghost predicate Traced(s: seq<SchemaRegistry>, es: seq<Event>, path: seq<nat>, y: nat, a: string, n: nat)
    requires History(s, es)
  {
    Chain(s, es, path, a) && path[|path| - 1] == y && Origin(s, es, path[0], a, n)
  }

  lemma PassesKeeps(s: seq<SchemaRegistry>, es: seq<Event>, x: nat, y: nat, a: string)
    requires History(s, es) && Passes(s, es, x, y, a)
    ensures a in s[y].mapping && s[y].mapping[a] == s[x].mapping[a]
  {
    assert Happens(s, es[y - 1], y - 1);
    if es[y - 1].Revise? {
      StepFacts(s[x], es[y - 1].keys, s[y]);
    }
  }

  lemma {:induction false} ChainKeeps(s: seq<SchemaRegistry>, es: seq<Event>, path: seq<nat>, a: string)
    requires History(s, es) && Chain(s, es, path, a) && a in s[path[0]].mapping
    ensures path[|path| - 1] < |s| && a in s[path[|path| - 1]].mapping
    ensures s[path[|path| - 1]].mapping[a] == s[path[0]].mapping[a]
  {
    if |path| > 1 {
      ChainKeeps(s, es, path[..|path| - 1], a);
      PassesKeeps(s, es, path[|path| - 2], path[|path| - 1], a);
    }
  }

  // The registry a's index came from.
  lemma PassedFrom(s: seq<SchemaRegistry>, es: seq<Event>, y: nat, a: string) returns (x: nat)
    requires History(s, es) && 0 < y < |s| && a in s[y].mapping && !HandsOut(s, es, y - 1, a, s[y].mapping[a])
    ensures x < y && Passes(s, es, x, y, a)
  {
    assert Happens(s, es[y - 1], y - 1);
    match es[y - 1]
    case Revise(parent, keys) =>
      StepFacts(s[parent], keys, s[y]);
      x := parent;
    case Upload(latest, local) =>
      x := if a !in s[local].mapping
          || (a in s[latest].mapping && s[latest].mapping[a] >= s[local].mapping[a]) then latest else local;
  }

  lemma {:induction false} IndexTraced(s: seq<SchemaRegistry>, es: seq<Event>, y: nat, a: string)
    returns (path: seq<nat>)
    requires History(s, es) && y < |s| && a in s[y].mapping
    ensures Traced(s, es, path, y, a, s[y].mapping[a])
  {
    if y == 0 || HandsOut(s, es, y - 1, a, s[y].mapping[a]) {
      path := [y];
    } else {
      var x := PassedFrom(s, es, y, a);
      PassesKeeps(s, es, x, y, a);
      var front := IndexTraced(s, es, x, a);
      path := front + [y];
    }
  }

  /** In a history an attribute has index n at some registry exactly when a chain of events leads
      there from the start or from the revision that gave it n, each event a revision that lists
      the attribute or a merge whose other side gives it no greater index. */
  lemma HistoryIndexKept(s: seq<SchemaRegistry>, es: seq<Event>, y: nat, a: string, n: nat)
    requires History(s, es) && y < |s|
    ensures (a in s[y].mapping && s[y].mapping[a] == n) <==> exists path :: Traced(s, es, path, y, a, n)
  {
    if a in s[y].mapping {
      var path := IndexTraced(s, es, y, a);
    }
    if path :| Traced(s, es, path, y, a, n) {
      ChainKeeps(s, es, path, a);
    }
  }

  // Two writers.

  ghost predicate Clash(x: SchemaRegistry, y: SchemaRegistry, floor: nat) {
    exists a, b, n :: n >= floor && a != b && Owns(x, a, n) && Owns(y, b, n)
  }

  lemma {:induction false} RunOrigin(rs: seq<SchemaRegistry>, ks: seq<seq<string>>, j: nat, a: string, n: nat)
    requires Run(rs, ks) && j < |rs| && Owns(rs[j], a, n)
    ensures Owns(rs[0], a, n) || n >= NextFree(rs[0])
  {
    if j > 0 {
      StepOwners(rs[j - 1], ks[j - 1], rs[j], a, n);
      CounterGrows(rs, ks, 0, j - 1);
      if Owns(rs[j - 1], a, n) {
        RunOrigin(rs, ks, j - 1, a, n);
      }
    }
  }

  /** Two writers start from one registry and one of them merges: over both runs and the merge no
      index is ever owned by two attributes, exactly when none is at the start and no index at or
      above the common counter has different owners in the two final registries. */
  lemma TwoWriters(rs: seq<SchemaRegistry>, ks: seq<seq<string>>, rs': seq<SchemaRegistry>, ks': seq<seq<string>>)
    requires Run(rs, ks) && Run(rs', ks') && rs[0] == rs'[0]
    ensures var x, y := rs[|ks|], rs'[|ks'|];
      NeverReused(rs + rs' + [Merge(x, y)]) <==> Unambiguous(rs[0]) && !Clash(x, y, NextFree(rs[0]))
  {
    var x, y := rs[|ks|], rs'[|ks'|];
    var all := rs + rs' + [Merge(x, y)];
    assert all[0] == rs[0] && all[|ks|] == x && all[|rs| + |ks'|] == y;
    if Unambiguous(rs[0]) && !Clash(x, y, NextFree(rs[0])) {
      forall i, j, a, b, n | 0 <= i < |all| && 0 <= j < |all| && Owns(all[i], a, n) && Owns(all[j], b, n)
        ensures a == b
      {
        FinalOwner(rs, ks, rs', ks', i, a, n);
        FinalOwner(rs, ks, rs', ks', j, b, n);
        SideOwners(rs, ks, rs', ks', a, b, n);
      }
    } else if a, b, n :| a != b && Owns(rs[0], a, n) && Owns(rs[0], b, n) {
      assert Owns(all[0], a, n) && Owns(all[0], b, n);
    } else if a, b, n :| n >= NextFree(rs[0]) && a != b && Owns(x, a, n) && Owns(y, b, n) {
      assert Owns(all[|ks|], a, n) && Owns(all[|rs| + |ks'|], b, n);
    }
  }

  lemma FinalOwner(rs: seq<SchemaRegistry>, ks: seq<seq<string>>, rs': seq<SchemaRegistry>, ks': seq<seq<string>>,
                   i: nat, a: string, n: nat)
    requires Run(rs, ks) && Run(rs', ks') && rs[0] == rs'[0] && Unambiguous(rs[0])
    requires var all := rs + rs' + [Merge(rs[|ks|], rs'[|ks'|])]; i < |all| && Owns(all[i], a, n)
    ensures Owns(rs[|ks|], a, n) || Owns(rs'[|ks'|], a, n)
  {
    if i < |rs| {
      OwnersPersist(rs, ks, i, |ks|, a, n);
    } else if i < |rs| + |rs'| {
      OwnersPersist(rs', ks', i - |rs|, |ks'|, a, n);
    } else {
      MergeOwners(rs[|ks|], rs'[|ks'|], a, n);
    }
  }

  lemma SideOwners(rs: seq<SchemaRegistry>, ks: seq<seq<string>>, rs': seq<SchemaRegistry>, ks': seq<seq<string>>,
                   a: string, b: string, n: nat)
    requires Run(rs, ks) && Run(rs', ks') && rs[0] == rs'[0] && Unambiguous(rs[0])
    requires !Clash(rs[|ks|], rs'[|ks'|], NextFree(rs[0]))
    requires Owns(rs[|ks|], a, n) || Owns(rs'[|ks'|], a, n)
    requires Owns(rs[|ks|], b, n) || Owns(rs'[|ks'|], b, n)
    ensures a == b
  {
    var x, y := rs[|ks|], rs'[|ks'|];
    RunUnambiguous(rs, ks, |ks|);
    RunUnambiguous(rs', ks', |ks'|);
    if n < NextFree(rs[0]) {
      FromStart(rs, ks, rs', ks', a, n);
      FromStart(rs, ks, rs', ks', b, n);
    }
  }

  lemma FromStart(rs: seq<SchemaRegistry>, ks: seq<seq<string>>, rs': seq<SchemaRegistry>, ks': seq<seq<string>>,
                  a: string, n: nat)
    requires Run(rs, ks) && Run(rs', ks') && rs[0] == rs'[0] && n < NextFree(rs[0])
    requires Owns(rs[|ks|], a, n) || Owns(rs'[|ks'|], a, n)
    ensures Owns(rs[0], a, n)
  {
    if Owns(rs[|ks|], a, n) {
      RunOrigin(rs, ks, |ks|, a, n);
    } else {
      RunOrigin(rs', ks', |ks'|, a, n);
    }
  }

  /** That the merged registry alone is unambiguous says less: here index 0 belongs to a for one
      writer and to b for the other, and the merge keeps b only. */
  lemma MergeHidesClash(a: string, b: string)
    requires a != b
    ensures var x, y := SchemaRegistry(1, map[a := 0], []), SchemaRegistry(2, map[b := 0, a := 1], []);
      && Step(EMPTY, [a], x) && Step(EMPTY, [b, a], y)
      && Clash(x, y, 0) && Unambiguous(Merge(x, y))
  {
    var x, y := SchemaRegistry(1, map[a := 0], []), SchemaRegistry(2, map[b := 0, a := 1], []);
    FirstRevision(a, b);
    assert Owns(x, a, 0) && Owns(y, b, 0);
    var m := Merge(x, y);
    assert m.mapping == map[b := 0, a := 1];
    assert m.burned == [];
  }

  lemma FirstRevision(a: string, b: string)
    requires a != b
    ensures Step(EMPTY, [a], SchemaRegistry(1, map[a := 0], []))
    ensures Step(EMPTY, [b, a], SchemaRegistry(2, map[b := 0, a := 1], []))
  {
    NextFreeUnique(EMPTY, 0, NextFree(EMPTY));
    var start := Start(EMPTY);
    assert start == Allocation(map[], 0);
    assert [a][..0] == [] && [b, a][..1] == [b] && [b][..0] == [];
    assert Allocate(start, []) == start;
    assert Allocate(start, [a]) == Allocation(map[a := 0], 1);
    assert Allocate(start, [b]) == Allocation(map[b := 0], 1);
    assert Allocate(start, [b, a]) == Allocation(map[b := 0, a := 1], 2);
    assert Keep(map[a := 0], [a]) == map[a := 0];
    assert Keep(map[b := 0, a := 1], [b, a]) == map[b := 0, a := 1];
    assert BurnsDropped(Without<nat>(map[], [a]), [], []) && BurnsDropped(Without<nat>(map[], [b, a]), [], []);
  }

  /** One writer drops an attribute, the other still maps it: merged, its index is mapped and
      burned at once, and the next revision that drops it goes unnoticed. */
  lemma DropUnnoticedAfterMerge(a: string)
    ensures var r, dropped := SchemaRegistry(1, map[a := 0], []), SchemaRegistry(1, map[], [Burned(0, a)]);
      && Step(EMPTY, [a], r) && Step(r, [], dropped)
      && Merge(dropped, r) == SchemaRegistry(1, map[a := 0], [Burned(0, a)])
      && DropsSilently(Merge(dropped, r), [])
  {
    var r, dropped := SchemaRegistry(1, map[a := 0], []), SchemaRegistry(1, map[], [Burned(0, a)]);
    FirstRevision(a, a + "'");
    NextFreeUnique(r, 1, NextFree(r)) by { assert Used(r, 0) by { assert a in r.mapping && r.mapping[a] == 0; } }
    assert dropped.burned[0].index == 0;
    assert dropped.burned[..0] == [];
    assert BurnsDropped(Without(r.mapping, []), r.burned, dropped.burned);
    assert Keep(r.mapping, []) == map[];
    assert PutAll([]) == [];
    assert PutAll(dropped.burned) == dropped.burned;
    assert Merge(dropped, r).mapping == map[a := 0];
    SilentDrop(a);
  }
}
