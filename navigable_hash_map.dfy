/**
 * The `NavigableHashMap` facade of src/NavigableHash.ts, its entry-set view
 * and the forward iterators over the skip list's level 0.
 *
 * The facade forwards to one `NavigableHashImpl`; its abstract state is the
 * implementation's `Entries()`, and every query is stated against the
 * characterisations in `Keys` (`IsFloor`, `IsCeiling`, ...). The source's
 * `null` and `undefined` results both become `None`.
 */
module NavigableHashMaps {
  import opened Wrappers
  import opened Keys
  import opened SkipLevels
  import opened SortedEntries
  import opened NavigableHash
  import opened Sequences

  /** The key of an optional entry. */
  function KeyOf<V>(r: Option<Entry<V>>): (k: Option<Key>)
    ensures k.Some? <==> r.Some?
  {
    if r.None? then None else Some(r.value.key)
  }

  /** The entry of arena node `x` (the source hands out the node itself as the entry). */
  function EntryOf<V>(impl: NavigableHashImpl<V>, x: nat): (e: Entry<V>)
    reads impl
    requires x < |impl.nodes|
    ensures e.key == impl.nodes[x].key && e.value == impl.nodes[x].value
  {
    Entry(impl.nodes[x].key, impl.nodes[x].value)
  }

  /** The stored entries are those of the live nodes, position by position. */
  lemma LiveEntries<V>(impl: NavigableHashImpl<V>)
    requires impl.Valid()
    ensures StrictlySorted(impl.Keys()) && |impl.Keys()| == |impl.Entries()| == |impl.Live|
    ensures forall i {:trigger impl.Live[i]} :: 0 <= i < |impl.Live| ==>
              && impl.Live[i] < |impl.nodes|
              && impl.Entries()[i] == EntryOf(impl, impl.Live[i])
              && impl.Keys()[i] == impl.nodes[impl.Live[i]].key
  {
  }

  /** The entry a query found at position `i`, or none when the position is out of range. */
  lemma FoundEntry<V>(impl: NavigableHashImpl<V>, i: int, p: Ptr)
    requires impl.Valid() && p == (if 0 <= i < |impl.Live| then Some(impl.Live[i]) else None)
    ensures p.Some? ==> p.value < |impl.nodes|
    ensures var r := if p.None? then None else Some(EntryOf(impl, p.value));
            && KeyOf(r) == KeyAt(impl.Keys(), i)
            && (r.Some? ==> r.value in impl.Entries() && r.value == impl.Entries()[i])
  {
    LiveEntries(impl);
  }

  class NavigableHashMap<V> {
    const impl: NavigableHashImpl<V>

    ghost predicate Valid()
      reads impl
    {
      impl.Valid()
    }

    /** The mappings, in ascending key order. */
    ghost function Entries(): (es: seq<Entry<V>>)
      reads impl
      requires Valid()
      ensures Ordered(es)
    {
      impl.Entries()
    }

    /** A map holding the entries of `initial`, put in order: a later entry for a key overrides an earlier one. */
    constructor(initial: seq<Entry<V>>)
      ensures Valid() && fresh(impl)
      ensures Entries() == PutAll([], initial)
    {
      impl := new NavigableHashImpl();
      new;
      var i := 0;
      while i < |initial|
        invariant 0 <= i <= |initial| && impl.Valid()
        invariant impl.Entries() == PutAll([], initial[..i])
      {
        ghost var es := impl.Entries();
        var _ := impl.Put(initial[i].key, initial[i].value);
        assert impl.Entries() == SortedEntries.Put(es, initial[i].key, initial[i].value);
        PutAllStep(initial, i);
        i := i + 1;
      }
      assert initial[..i] == initial;
    }

    /** The key following `key`, when `key` is stored and is not the greatest key; none otherwise. */
    method GetNextHigherKey(key: Key) returns (r: Option<Key>)
      requires Valid()
      ensures key !in impl.Keys() ==> r == None
      ensures key in impl.Keys() ==> IsHigher(impl.Keys(), key, r)
    {
      LiveEntries(impl);
      ghost var ks := impl.Keys();
      ghost var f := FloorIndex(ks, key);
      FoundAtFloor(ks, key);
      var node := impl.GetEntry(key);
      if node.None? {
        return None;
      }
      var nn := impl.NextHigherNode(node);
      HigherFromFloor(ks, key);
      HigherIndexIsHigher(ks, key);
      assert nn == if f + 1 < |impl.Live| then Some(impl.Live[f + 1]) else None;
      if nn.None? {
        return None;
      }
      assert impl.nodes[nn.value].key == ks[f + 1];
      r := Some(impl.nodes[nn.value].key);
    }

    /** The number of mappings. */
    function Size(): (n: int)
      reads impl
      requires Valid()
      ensures n == |Entries()|
    {
      impl.Size()
    }

    /** The value mapped to `key`; none when the key is absent. */
    method Get(key: Key) returns (r: Option<V>)
      requires Valid()
      ensures r == Lookup(Entries(), key)
      ensures r.Some? <==> key in impl.Keys()
    {
      LiveEntries(impl);
      LookupFloor(Entries(), key);
      LookupMember(Entries(), key);
      var node := impl.GetEntry(key);
      if node.None? {
        return None;
      }
      r := Some(impl.nodes[node.value].value);
    }

    /** True exactly when `key` is mapped. */
    method ContainsKey(key: Key) returns (b: bool)
      requires Valid()
      ensures b <==> key in impl.Keys()
      ensures b <==> Lookup(Entries(), key).Some?
    {
      LiveEntries(impl);
      FoundAtFloor(impl.Keys(), key);
      LookupMember(Entries(), key);
      var node := impl.GetEntry(key);
      b := node.Some?;
    }

    /** True exactly when there is no mapping. */
    function IsEmpty(): (b: bool)
      reads impl
      requires Valid()
      ensures b <==> |Entries()| == 0
    {
      impl.IsEmpty()
    }

    /** The entry-set view: reads through to the same skip list. */
    method EntrySet() returns (s: ImmutableEntrySet<V>)
      requires Valid()
      ensures fresh(s) && s.impl == impl
    {
      s := new ImmutableEntrySet(impl);
    }

    /** Maps `key` to `value`, returning the value it replaced; none when the key was new. */
    method Put(key: Key, value: V) returns (previous: Option<V>)
      requires Valid()
      modifies impl
      ensures Valid() && Entries() == SortedEntries.Put(old(Entries()), key, value)
      ensures previous == Lookup(old(Entries()), key)
    {
      previous := impl.Put(key, value);
    }

    /** Removes the mapping of `key`, returning its value; none, and no change, when absent. */
    method Remove(key: Key) returns (r: Option<V>)
      requires Valid()
      modifies impl
      ensures Valid() && Entries() == Delete(old(Entries()), key)
      ensures r == Lookup(old(Entries()), key)
    {
      r := impl.Remove(key);
    }

    /** Removes every mapping. */
    method Clear()
      requires Valid()
      modifies impl
      ensures Valid() && Entries() == []
    {
      impl.Clear();
    }

    /** The least key; none when empty. */
    function FirstKey(): (r: Option<Key>)
      reads impl
      requires Valid()
      ensures IsLeast(impl.Keys(), r)
    {
      LiveEntries(impl);
      EndsAreExtremes(impl.Keys());
      var firstNode := impl.FirstEntry();
      if firstNode.None? then None else Some(impl.nodes[firstNode.value].key)
    }

    /** The entry with the least key; none when empty. */
    function FirstEntry(): (r: Option<Entry<V>>)
      reads impl
      requires Valid()
      ensures IsLeast(impl.Keys(), KeyOf(r)) && (r.Some? ==> r.value in Entries())
    {
      LiveEntries(impl);
      EndsAreExtremes(impl.Keys());
      FoundEntry(impl, 0, impl.FirstEntry());
      var firstNode := impl.FirstEntry();
      if firstNode.None? then None else Some(EntryOf(impl, firstNode.value))
    }

    /** The entry with the least key at least `key`. */
    method CeilingEntry(key: Key) returns (r: Option<Entry<V>>)
      requires Valid()
      ensures IsCeiling(impl.Keys(), key, KeyOf(r)) && (r.Some? ==> r.value in Entries())
    {
      LiveEntries(impl);
      CeilingIndexIsCeiling(impl.Keys(), key);
      var node := impl.CeilingEntry(key);
      FoundEntry(impl, CeilingIndex(impl.Keys(), key), node);
      r := if node.None? then None else Some(EntryOf(impl, node.value));
    }

    /** The least key at least `key`. */
    method CeilingKey(key: Key) returns (r: Option<Key>)
      requires Valid()
      ensures IsCeiling(impl.Keys(), key, r)
    {
      LiveEntries(impl);
      CeilingIndexIsCeiling(impl.Keys(), key);
      var node := impl.CeilingEntry(key);
      FoundEntry(impl, CeilingIndex(impl.Keys(), key), node);
      r := if node.None? then None else Some(impl.nodes[node.value].key);
    }

    /** The least key above `key`. */
    method HigherKey(key: Key) returns (r: Option<Key>)
      requires Valid()
      ensures IsHigher(impl.Keys(), key, r)
    {
      LiveEntries(impl);
      HigherIndexIsHigher(impl.Keys(), key);
      var node := impl.HigherEntry(key);
      FoundEntry(impl, HigherIndex(impl.Keys(), key), node);
      r := if node.None? then None else Some(impl.nodes[node.value].key);
    }

    /** The entry with the least key above `key`. */
    method HigherEntry(key: Key) returns (r: Option<Entry<V>>)
      requires Valid()
      ensures IsHigher(impl.Keys(), key, KeyOf(r)) && (r.Some? ==> r.value in Entries())
    {
      LiveEntries(impl);
      HigherIndexIsHigher(impl.Keys(), key);
      var node := impl.HigherEntry(key);
      FoundEntry(impl, HigherIndex(impl.Keys(), key), node);
      r := if node.None? then None else Some(EntryOf(impl, node.value));
    }

    /** The greatest key below `key`. */
    method LowerKey(key: Key) returns (r: Option<Key>)
      requires Valid()
      ensures IsLower(impl.Keys(), key, r)
    {
      LiveEntries(impl);
      LowerIndexIsLower(impl.Keys(), key);
      var node := impl.LowerEntry(key);
      FoundEntry(impl, LowerIndex(impl.Keys(), key), node);
      r := if node.None? then None else Some(impl.nodes[node.value].key);
    }

    /** The entry with the greatest key below `key`. */
    method LowerEntry(key: Key) returns (r: Option<Entry<V>>)
      requires Valid()
      ensures IsLower(impl.Keys(), key, KeyOf(r)) && (r.Some? ==> r.value in Entries())
    {
      LiveEntries(impl);
      LowerIndexIsLower(impl.Keys(), key);
      var node := impl.LowerEntry(key);
      FoundEntry(impl, LowerIndex(impl.Keys(), key), node);
      r := if node.None? then None else Some(EntryOf(impl, node.value));
    }

    /** The greatest key at most `key`. */
    method FloorKey(key: Key) returns (r: Option<Key>)
      requires Valid()
      ensures IsFloor(impl.Keys(), key, r)
    {
      LiveEntries(impl);
      FloorIndexIsFloor(impl.Keys(), key);
      var node := impl.FloorEntry(key);
      FoundEntry(impl, FloorIndex(impl.Keys(), key), node);
      r := if node.None? then None else Some(impl.nodes[node.value].key);
    }

    /** The entry with the greatest key at most `key`. */
    method FloorEntry(key: Key) returns (r: Option<Entry<V>>)
      requires Valid()
      ensures IsFloor(impl.Keys(), key, KeyOf(r)) && (r.Some? ==> r.value in Entries())
    {
      LiveEntries(impl);
      FloorIndexIsFloor(impl.Keys(), key);
      var node := impl.FloorEntry(key);
      FoundEntry(impl, FloorIndex(impl.Keys(), key), node);
      r := if node.None? then None else Some(EntryOf(impl, node.value));
    }

    /** The greatest key; none when empty. */
    method LastKey() returns (r: Option<Key>)
      requires Valid()
      ensures IsGreatest(impl.Keys(), r)
    {
      LiveEntries(impl);
      EndsAreExtremes(impl.Keys());
      var node := impl.LastEntry();
      FoundEntry(impl, |impl.Live| - 1, node);
      r := if node.None? then None else Some(impl.nodes[node.value].key);
    }

    /** The entry with the greatest key; none when empty. */
    method LastEntry() returns (r: Option<Entry<V>>)
      requires Valid()
      ensures IsGreatest(impl.Keys(), KeyOf(r)) && (r.Some? ==> r.value in Entries())
    {
      LiveEntries(impl);
      EndsAreExtremes(impl.Keys());
      var node := impl.LastEntry();
      FoundEntry(impl, |impl.Live| - 1, node);
      r := if node.None? then None else Some(EntryOf(impl, node.value));
    }
  }

  /** The entry-set view of a map: size, emptiness and membership read through to the skip list. */
  class ImmutableEntrySet<V> {
    const impl: NavigableHashImpl<V>

    constructor(iMap: NavigableHashImpl<V>)
      ensures impl == iMap
    {
      impl := iMap;
    }

    /** The number of entries of the underlying map. */
    function Size(): (n: int)
      reads impl
      requires impl.Valid()
      ensures n == |impl.Entries()|
    {
      impl.Size()
    }

    /** True exactly when the underlying map is empty. */
    function IsEmpty(): (b: bool)
      reads impl
      requires impl.Valid()
      ensures b <==> |impl.Entries()| == 0
    {
      impl.IsEmpty()
    }

    /**
     * Membership by key only: an entry counts as contained when its key is
     * mapped, whatever value the entry carries. A missing item is not contained.
     */
    method Contains(item: Option<Entry<V>>) returns (b: bool)
      requires impl.Valid()
      ensures b <==> item.Some? && item.value.key in impl.Keys()
    {
      if item.None? {
        return false;
      }
      LiveEntries(impl);
      FoundAtFloor(impl.Keys(), item.value.key);
      var node := impl.GetEntry(item.value.key);
      b := node.Some?;
    }

    /** Hands each entry, in ascending key order, to the consumer: the entries visited, in order. */
    method ForEach() returns (visited: seq<Entry<V>>)
      requires impl.Valid()
      ensures visited == impl.Entries()
    {
      ghost var es := impl.Entries();
      var iter := new EntrySetJIterator(impl);
      visited := [];
      while iter.HasNext()
        invariant iter.Valid() && iter.impl == impl && impl.Entries() == es
        invariant visited == es[..iter.Count]
        decreases |es| - iter.Count
      {
        ghost var c := iter.Count;
        var t := iter.Next();
        VisitNext(es, c);
        visited := visited + [t.value];
      }
      assert es[..iter.Count] == es;
    }
  }

  /**
   * The Java-style key iterator: `location` is the node last returned, none
   * before the first call. `Count` is the number of keys returned so far.
   */
  class KeySetJIterator<V> {
    var location: Option<nat>
    const impl: NavigableHashImpl<V>
    ghost var Count: nat

    ghost predicate Valid()
      reads this, impl
    {
      && impl.Valid() && Count <= |impl.Live|
      && (Count == 0 <==> location.None?)
      && (0 < Count ==> location == Some(impl.Live[Count - 1]))
    }

    constructor(implI: NavigableHashImpl<V>)
      requires implI.Valid()
      ensures Valid() && impl == implI && Count == 0
    {
      impl := implI;
      location := None;
      Count := 0;
    }

    /** True exactly when a key is left to return. */
    function HasNext(): (b: bool)
      reads this, impl
      requires Valid()
      ensures b <==> Count < |impl.Live|
    {
      LiveEntries(impl);
      if location.None? then impl.FirstEntry().Some?
      else impl.NextHigherNode(location).Some?
    }

    /** The next key in ascending order; none once every key has been returned. */
    method Next() returns (r: Option<Key>)
      requires Valid()
      modifies this
      ensures Valid()
      ensures old(Count) < |impl.Live| ==> Count == old(Count) + 1 && r == Some(impl.Keys()[old(Count)])
      ensures old(Count) == |impl.Live| ==> Count == old(Count) && r == None
    {
      LiveEntries(impl);
      if location.None? {
        var firstEntry := impl.FirstEntry();
        if firstEntry.None? {
          return None;
        }
        location := firstEntry;
        Count := 1;
        return Some(impl.nodes[firstEntry.value].key);
      }
      var tmpEntry := impl.NextHigherNode(location);
      if tmpEntry.None? {
        return None;
      }
      location := tmpEntry;
      Count := Count + 1;
      r := Some(impl.nodes[tmpEntry.value].key);
    }
  }

  /**
   * The TypeScript-protocol key iterator: `location` is the node to return
   * next, none once exhausted. `Count` is the number of keys returned so far.
   */
  class KeySetIterator<V> {
    var location: Ptr
    const impl: NavigableHashImpl<V>
    ghost var Count: nat

    ghost predicate Valid()
      reads this, impl
    {
      && impl.Valid() && Count <= |impl.Live|
      && location == if Count < |impl.Live| then Some(impl.Live[Count]) else None
    }

    constructor(implI: NavigableHashImpl<V>)
      requires implI.Valid()
      ensures Valid() && impl == implI && Count == 0
    {
      impl := implI;
      location := implI.FirstEntry();
      Count := 0;
    }

    /** The next key in ascending order, then `done` with no value once every key has been returned. */
    method Next() returns (r: IteratorResult<Key>)
      requires Valid()
      modifies this
      ensures Valid()
      ensures old(Count) < |impl.Live| ==> Count == old(Count) + 1 && r == IteratorResult(false, Some(impl.Keys()[old(Count)]))
      ensures old(Count) == |impl.Live| ==> Count == old(Count) && r == IteratorResult(true, None)
    {
      if location.None? {
        return IteratorResult(true, None);
      }
      ghost var p := Count;
      LiveEntries(impl);
      assert impl.Keys()[p] == impl.nodes[impl.Live[p]].key;
      r := IteratorResult(false, Some(impl.nodes[location.value].key));
      var following := impl.NextHigherNode(location);
      assert following == if p + 1 < |impl.Live| then Some(impl.Live[p + 1]) else None;
      location := following;
      Count := p + 1;
    }
  }

  /** The Java-style entry iterator: as `KeySetJIterator`, returning the entries. */
  class EntrySetJIterator<V> {
    var location: Option<nat>
    const impl: NavigableHashImpl<V>
    ghost var Count: nat

    ghost predicate Valid()
      reads this, impl
    {
      && impl.Valid() && Count <= |impl.Live|
      && (Count == 0 <==> location.None?)
      && (0 < Count ==> location == Some(impl.Live[Count - 1]))
    }

    constructor(iMap: NavigableHashImpl<V>)
      requires iMap.Valid()
      ensures Valid() && impl == iMap && Count == 0
    {
      impl := iMap;
      location := None;
      Count := 0;
    }

    /** True exactly when an entry is left to return. */
    function HasNext(): (b: bool)
      reads this, impl
      requires Valid()
      ensures b <==> Count < |impl.Live|
    {
      LiveEntries(impl);
      if location.None? then impl.FirstEntry().Some?
      else impl.NextHigherNode(location).Some?
    }

    /** The next entry in ascending key order; none once every entry has been returned. */
    method Next() returns (r: Option<Entry<V>>)
      requires Valid()
      modifies this
      ensures Valid()
      ensures old(Count) < |impl.Live| ==> Count == old(Count) + 1 && r == Some(impl.Entries()[old(Count)])
      ensures old(Count) == |impl.Live| ==> Count == old(Count) && r == None
    {
      LiveEntries(impl);
      if location.None? {
        var firstEntry := impl.FirstEntry();
        if firstEntry.None? {
          return None;
        }
        location := firstEntry;
        Count := 1;
        return Some(EntryOf(impl, firstEntry.value));
      }
      var tmpEntry := impl.NextHigherNode(location);
      if tmpEntry.None? {
        return None;
      }
      location := tmpEntry;
      Count := Count + 1;
      r := Some(EntryOf(impl, tmpEntry.value));
    }
  }

  /** The TypeScript-protocol entry iterator: as `KeySetIterator`, returning the entries. */
  class EntrySetIterator<V> {
    var location: Ptr
    const impl: NavigableHashImpl<V>
    ghost var Count: nat

    ghost predicate Valid()
      reads this, impl
    {
      && impl.Valid() && Count <= |impl.Live|
      && location == if Count < |impl.Live| then Some(impl.Live[Count]) else None
    }

    constructor(iMap: NavigableHashImpl<V>)
      requires iMap.Valid()
      ensures Valid() && impl == iMap && Count == 0
    {
      impl := iMap;
      location := iMap.FirstEntry();
      Count := 0;
    }

    /** The next entry in ascending key order, then `done` with no value once every entry has been returned. */
    method Next() returns (r: IteratorResult<Entry<V>>)
      requires Valid()
      modifies this
      ensures Valid()
      ensures old(Count) < |impl.Live| ==> Count == old(Count) + 1 && r == IteratorResult(false, Some(impl.Entries()[old(Count)]))
      ensures old(Count) == |impl.Live| ==> Count == old(Count) && r == IteratorResult(true, None)
    {
      LiveEntries(impl);
      if location.None? {
        return IteratorResult(true, None);
      }
      r := IteratorResult(false, Some(EntryOf(impl, location.value)));
      location := impl.NextHigherNode(location);
      Count := Count + 1;
    }
  }
}
