/**
 * The `NavigableHashSet` facade of src/NavigableHash.ts: a skip list whose
 * every value is the marker `1`, so that its keys are the elements. The
 * abstract state is the ascending sequence of elements; every query is
 * stated against the characterisations in `Keys`. The source's `null` and
 * `undefined` results both become `None`.
 */
module NavigableHashSets {
  import opened Wrappers
  import opened Keys
  import opened SortedEntries
  import opened NavigableHash
  import opened NavigableHashMaps

  /** The marker value stored with every element. */
  const Marker: int := 1

  /** Every entry carries the marker value. */
  ghost predicate AllMarked(es: seq<Entry<int>>)
  {
    forall i :: 0 <= i < |es| ==> es[i].value == Marker
  }

  /** Putting a marked entry keeps every entry marked. */
  lemma PutKeepsMarked(es: seq<Entry<int>>, k: Key)
    requires AllMarked(es)
    ensures AllMarked(SortedEntries.Put(es, k, Marker))
  {
    var f := FloorIndex(KeysOfEntries(es), k);
    var es' := SortedEntries.Put(es, k, Marker);
    if !(f >= 0 && es[f].key == k) {
      forall i | 0 <= i < |es'|
        ensures es'[i].value == Marker
      {
        if i > f + 1 {
          assert es'[i] == es[i - 1];
        }
      }
    }
  }

  /** Deleting keeps every entry marked. */
  lemma DeleteKeepsMarked(es: seq<Entry<int>>, k: Key)
    requires AllMarked(es)
    ensures AllMarked(Delete(es, k))
  {
    var f := FloorIndex(KeysOfEntries(es), k);
    if f >= 0 && es[f].key == k {
      var es' := es[..f] + es[f + 1..];
      forall i | 0 <= i < |es'|
        ensures es'[i].value == Marker
      {
        if i >= f {
          assert es'[i] == es[i + 1];
        }
      }
    }
  }

  /** The keys after putting `k` are the old keys and `k`. */
  lemma PutKeys(es: seq<Entry<int>>, k: Key, v: int)
    requires Ordered(es)
    ensures forall j :: j in KeysOfEntries(SortedEntries.Put(es, k, v)) <==> j == k || j in KeysOfEntries(es)
  {
    PutOrdered(es, k, v);
    forall j
      ensures j in KeysOfEntries(SortedEntries.Put(es, k, v)) <==> j == k || j in KeysOfEntries(es)
    {
      PutLookup(es, k, v, j);
      LookupMember(es, j);
      LookupMember(SortedEntries.Put(es, k, v), j);
    }
  }

  /** The keys after deleting `k` are the old keys but `k`. */
  lemma DeleteKeys(es: seq<Entry<int>>, k: Key)
    requires Ordered(es)
    ensures forall j :: j in KeysOfEntries(Delete(es, k)) <==> j != k && j in KeysOfEntries(es)
  {
    DeleteOrdered(es, k);
    forall j
      ensures j in KeysOfEntries(Delete(es, k)) <==> j != k && j in KeysOfEntries(es)
    {
      DeleteLookup(es, k, j);
      LookupMember(es, j);
      LookupMember(Delete(es, k), j);
    }
  }

  class NavigableHashSet {
    const impl: NavigableHashImpl<int>

    /** A well-linked skip list whose values are all the marker. */
    ghost predicate Valid()
      reads impl
    {
      impl.Valid() && AllMarked(impl.Entries())
    }

    /** The elements, ascending. */
    ghost function Elements(): (ks: seq<Key>)
      reads impl
      requires Valid()
      ensures StrictlySorted(ks)
    {
      LiveEntries(impl);
      impl.Keys()
    }

    /** A set holding exactly the elements of `initial`. */
    constructor(initial: seq<Key>)
      ensures Valid() && fresh(impl)
      ensures forall k :: k in Elements() <==> k in initial
    {
      impl := new NavigableHashImpl();
      new;
      var i := 0;
      while i < |initial|
        invariant 0 <= i <= |initial| && Valid()
        invariant forall k :: k in impl.Keys() <==> k in initial[..i]
      {
        ghost var es := impl.Entries();
        var _ := impl.Put(initial[i], Marker);
        assert impl.Entries() == SortedEntries.Put(es, initial[i], Marker);
        PutKeepsMarked(es, initial[i]);
        PutKeys(es, initial[i], Marker);
        assert initial[..i + 1] == initial[..i] + [initial[i]];
        i := i + 1;
      }
      assert initial[..i] == initial;
    }

    /** Adds `element`; true exactly when it was absent. */
    method Add(element: Key) returns (added: bool)
      requires Valid()
      modifies impl
      ensures Valid() && impl.Entries() == SortedEntries.Put(old(impl.Entries()), element, Marker)
      ensures forall k :: k in Elements() <==> k == element || k in old(Elements())
      ensures added <==> element !in old(Elements())
    {
      ghost var es := impl.Entries();
      LookupMember(es, element);
      var tmp := impl.Put(element, Marker);
      PutKeepsMarked(es, element);
      PutKeys(es, element, Marker);
      if tmp == Some(Marker) {
        return false;
      }
      added := true;
    }

    /** The number of elements. */
    function Size(): (n: int)
      reads impl
      requires Valid()
      ensures n == |Elements()|
    {
      impl.Size()
    }

    /** True exactly when the set has no element. */
    function IsEmpty(): (b: bool)
      reads impl
      requires Valid()
      ensures b <==> |Elements()| == 0
    {
      impl.IsEmpty()
    }

    /** True exactly when `key` is an element. */
    method Contains(key: Key) returns (b: bool)
      requires Valid()
      ensures b <==> key in Elements()
    {
      LiveEntries(impl);
      FoundAtFloor(impl.Keys(), key);
      var node := impl.GetEntry(key);
      b := node.Some?;
    }

    /** The greatest element at most `key`. */
    method Floor(key: Key) returns (r: Option<Key>)
      requires Valid()
      ensures IsFloor(Elements(), key, r)
    {
      LiveEntries(impl);
      FloorIndexIsFloor(impl.Keys(), key);
      var node := impl.FloorEntry(key);
      FoundEntry(impl, FloorIndex(impl.Keys(), key), node);
      r := if node.None? then None else Some(impl.nodes[node.value].key);
    }

    /** The least element at least `key`. */
    method Ceiling(key: Key) returns (r: Option<Key>)
      requires Valid()
      ensures IsCeiling(Elements(), key, r)
    {
      LiveEntries(impl);
      CeilingIndexIsCeiling(impl.Keys(), key);
      var node := impl.CeilingEntry(key);
      FoundEntry(impl, CeilingIndex(impl.Keys(), key), node);
      r := if node.None? then None else Some(impl.nodes[node.value].key);
    }

    /** The least element above `key`. */
    method Higher(key: Key) returns (r: Option<Key>)
      requires Valid()
      ensures IsHigher(Elements(), key, r)
    {
      LiveEntries(impl);
      HigherIndexIsHigher(impl.Keys(), key);
      var node := impl.HigherEntry(key);
      FoundEntry(impl, HigherIndex(impl.Keys(), key), node);
      r := if node.None? then None else Some(impl.nodes[node.value].key);
    }

    /** Hands each element, in ascending order, to the consumer: the elements visited, in order. */
    method ForEach() returns (visited: seq<Key>)
      requires Valid()
      ensures visited == Elements()
    {
      ghost var ks := Elements();
      var iter := new KeySetJIterator(impl);
      visited := [];
      while iter.HasNext()
        invariant iter.Valid() && iter.impl == impl && impl.Keys() == ks
        invariant visited == ks[..iter.Count]
        decreases |ks| - iter.Count
      {
        ghost var c := iter.Count;
        var t := iter.Next();
        assert ks[..c + 1] == ks[..c] + [t.value];
        visited := visited + [t.value];
      }
      assert ks[..iter.Count] == ks;
    }

    /** The least element; none when empty. */
    function First(): (r: Option<Key>)
      reads impl
      requires Valid()
      ensures IsLeast(Elements(), r)
    {
      LiveEntries(impl);
      EndsAreExtremes(impl.Keys());
      var node := impl.FirstEntry();
      if node.None? then None else Some(impl.nodes[node.value].key)
    }

    /** The greatest element below `key`. */
    method Lower(key: Key) returns (r: Option<Key>)
      requires Valid()
      ensures IsLower(Elements(), key, r)
    {
      LiveEntries(impl);
      LowerIndexIsLower(impl.Keys(), key);
      var node := impl.LowerEntry(key);
      FoundEntry(impl, LowerIndex(impl.Keys(), key), node);
      r := if node.None? then None else Some(impl.nodes[node.value].key);
    }

    /** The greatest element; none when empty. */
    method Last() returns (r: Option<Key>)
      requires Valid()
      ensures IsGreatest(Elements(), r)
    {
      LiveEntries(impl);
      EndsAreExtremes(impl.Keys());
      var node := impl.LastEntry();
      FoundEntry(impl, |impl.Live| - 1, node);
      r := if node.None? then None else Some(impl.nodes[node.value].key);
    }

    /** Removes `element`; true exactly when it was present. */
    method Remove(element: Key) returns (removed: bool)
      requires Valid()
      modifies impl
      ensures Valid() && impl.Entries() == Delete(old(impl.Entries()), element)
      ensures forall k :: k in Elements() <==> k != element && k in old(Elements())
      ensures removed <==> element in old(Elements())
    {
      ghost var es := impl.Entries();
      LookupMember(es, element);
      var tmp := impl.Remove(element);
      DeleteKeepsMarked(es, element);
      DeleteKeys(es, element);
      removed := tmp.Some?;
    }

    /** Removes every element. */
    method Clear()
      requires Valid()
      modifies impl
      ensures Valid() && Elements() == []
    {
      impl.Clear();
    }

    /** Removes and returns the least element; none, and no change, when empty. */
    method PollFirst() returns (r: Option<Key>)
      requires Valid()
      modifies impl
      ensures Valid()
      ensures r == KeyAt(old(Elements()), 0) && IsLeast(old(Elements()), r)
      ensures r.None? ==> Elements() == old(Elements())
      ensures r.Some? ==> Elements() == old(Elements())[1..]
    {
      LiveEntries(impl);
      EndsAreExtremes(impl.Keys());
      var node := impl.FirstEntry();
      if node.None? {
        return None;
      }
      r := Some(impl.nodes[node.value].key);
      Unlink(node.value, 0);
    }

    /** Removes and returns the greatest element; none, and no change, when empty. */
    method PollLast() returns (r: Option<Key>)
      requires Valid()
      modifies impl
      ensures Valid()
      ensures r == KeyAt(old(Elements()), |old(Elements())| - 1) && IsGreatest(old(Elements()), r)
      ensures r.None? ==> Elements() == old(Elements())
      ensures r.Some? ==> Elements() == old(Elements())[..|old(Elements())| - 1]
    {
      LiveEntries(impl);
      EndsAreExtremes(impl.Keys());
      var node := impl.LastEntry();
      if node.None? {
        return None;
      }
      r := Some(impl.nodes[node.value].key);
      Unlink(node.value, |impl.Live| - 1);
    }

    /** The `removeElement` call of the polls: unlinks the stored node `node`, at position `p`. */
    method Unlink(node: nat, ghost p: nat)
      requires Valid() && p < |impl.Live| && impl.Live[p] == node
      modifies impl
      ensures Valid() && Elements() == old(Elements()[..p] + Elements()[p + 1..])
    {
      ghost var es, oldNodes, live := impl.Entries(), impl.nodes, impl.Live;
      impl.RemoveElement(node, p);
      EntriesRemove(oldNodes, impl.nodes, live, p);
      assert impl.Entries() == es[..p] + es[p + 1..];
      forall i | 0 <= i < |impl.Entries()|
        ensures impl.Entries()[i].value == Marker
      {
        if i >= p {
          assert impl.Entries()[i] == es[i + 1];
        }
      }
      assert KeysOfEntries(impl.Entries()) == KeysOfEntries(es)[..p] + KeysOfEntries(es)[p + 1..];
    }

    /** The element following `key` in the set: the least element above it. */
    method GetNextHigherKey(key: Key) returns (r: Option<Key>)
      requires Valid()
      ensures IsHigher(Elements(), key, r)
    {
      r := Higher(key);
    }
  }
}
