/**
 * The insertion-ordered set of src/LinkedHashSet.ts: a hash set (the base
 * class, seen here only through its membership) plus a circular doubly linked
 * list of entries threaded through a sentinel `header` that records the order
 * in which elements were first added. Element equality is Dafny equality.
 */
module LinkedHashSets {
  import opened Wrappers
  import opened Sequences

  /** Applies `add` to each element of `xs` in turn: new elements go to the end. */
  function AddAll<K(==)>(acc: seq<K>, xs: seq<K>): seq<K>
    decreases |xs|
  {
    if xs == [] then acc
    else
      var prefix := AddAll(acc, xs[..|xs| - 1]);
      if xs[|xs| - 1] in prefix then prefix else prefix + [xs[|xs| - 1]]
  }

  /**
   * Adding a sequence keeps the order free of duplicates, keeps what was there
   * as a prefix, and ends up holding exactly the old and the added elements.
   */
  lemma {:induction false} AddAllProperties<K>(acc: seq<K>, xs: seq<K>)
    requires Distinct(acc)
    ensures Distinct(AddAll(acc, xs))
    ensures acc <= AddAll(acc, xs)
    ensures (set x | x in AddAll(acc, xs)) == (set x | x in acc) + (set x | x in xs)
    decreases |xs|
  {
    if xs != [] {
      var init := xs[..|xs| - 1];
      AddAllProperties(acc, init);
      assert xs == init + [xs[|xs| - 1]];
      var prefix, last := AddAll(acc, init), xs[|xs| - 1];
      var extended := prefix + [last];
      if last !in prefix {
        DistinctAppend(prefix, last);
      }
      assert (set x | x in extended) == (set x | x in prefix) + {last};
      assert (set x | x in xs) == (set x | x in init) + {last};
    }
  }

  /** `s` without its element at position `k`. */
  function RemoveAt<K>(s: seq<K>, k: nat): seq<K>
    requires k < |s|
  {
    s[..k] + s[k + 1..]
  }

  /** Dropping position `k` of a repeat-free sequence drops exactly that element. */
  lemma RemoveAtProperties<K>(s: seq<K>, k: nat)
    requires k < |s| && Distinct(s)
    ensures |RemoveAt(s, k)| == |s| - 1
    ensures forall i {:trigger RemoveAt(s, k)[i]} :: 0 <= i < |s| - 1 ==> RemoveAt(s, k)[i] == if i < k then s[i] else s[i + 1]
    ensures Distinct(RemoveAt(s, k))
    ensures (set x | x in RemoveAt(s, k)) == (set x | x in s) - {s[k]}
  {
    DistinctRemove(s, k);
    var r := RemoveAt(s, k);
    forall i {:trigger r[i]} | 0 <= i < |r|
      ensures r[i] == if i < k then s[i] else s[i + 1]
    {
    }
    forall x | x in s && x != s[k]
      ensures x in r
    {
      var j :| 0 <= j < |s| && s[j] == x;
      if j < k {
        assert r[j] == x;
      } else {
        assert r[j - 1] == x;
      }
    }
  }

  /** Entries `R` holding `E` still hold the remaining values once position `k` is dropped from both. */
  lemma RemoveAtValues<K>(R: seq<LinkedEntry<K>>, E: seq<K>, k: nat)
    requires k < |R| == |E|
    requires forall i :: 0 <= i < |R| ==> R[i].value == Some(E[i])
    ensures forall i :: 0 <= i < |R| - 1 ==> RemoveAt(R, k)[i].value == Some(RemoveAt(E, k)[i])
  {
    forall i | 0 <= i < |R| - 1
      ensures RemoveAt(R, k)[i].value == Some(RemoveAt(E, k)[i])
    {
      var j := if i < k then i else i + 1;
      assert RemoveAt(R, k)[i] == R[j] && RemoveAt(E, k)[i] == E[j];
    }
  }

  /** An entry of the chain; the sentinel header holds no value. */
  class LinkedEntry<K(==)> {
    var before: LinkedEntry?<K>
    var after: LinkedEntry?<K>
    const value: Option<K>

    constructor (v: Option<K>)
      ensures value == v && before == null && after == null
    {
      value := v;
      before := null;
      after := null;
    }

    /** Joins this entry's neighbours to each other. */
    method Remove()
      requires before != null && after != null
      modifies before, after
      ensures old(before).after == old(after) && old(after).before == old(before)
      ensures old(before) != old(after) ==>
                old(before).before == old(before.before) && old(after).after == old(after.after)
    {
      before.after := after;
      after.before := before;
    }

    /** The stored value. */
    function GetValue(): (r: Option<K>)
      reads this
      ensures r == value
    {
      value
    }

    /** Links this entry in just before `existingEntry`. */
    method AddBefore(existingEntry: LinkedEntry<K>)
      requires existingEntry.before != null
      requires this != existingEntry && this != existingEntry.before
      modifies this, existingEntry, existingEntry.before
      ensures after == existingEntry && before == old(existingEntry.before)
      ensures before.after == this && existingEntry.before == this
      ensures before != existingEntry ==>
                before.before == old(existingEntry.before.before) && existingEntry.after == old(existingEntry.after)
    {
      after := existingEntry;
      before := existingEntry.before;
      before.after := this;
      after.before := this;
    }

    /** True exactly when the entry holds `o` (a null or undefined `o` never matches). */
    function Equals(o: JsValue<K>): (b: bool)
      reads this
      ensures b <==> o.Present? && value == Some(o.value)
    {
      match o
      case Undefined => false
      case Null => false
      case Present(k) => Some(k) == value
    }
  }

  class LinkedHashSet<K(==)> {
    /** The elements of the underlying hash set. */
    var hashed: set<K>
    var header: LinkedEntry<K>
    /** The chain after the header, in insertion order. */
    ghost var Ring: seq<LinkedEntry<K>>
    /** The values of `Ring`. */
    ghost var Elements: seq<K>
    ghost var Repr: set<object>

    /** The entries form a ring through `header` holding `Elements`, without repeats. */
    ghost predicate RingValid()
      reads this, Repr
    {
      && this in Repr && header in Repr && header !in Ring
      && header.value == None
      && |Ring| == |Elements|
      && (forall i :: 0 <= i < |Ring| ==> Ring[i] in Repr)
      && Distinct(Ring)
      && (forall i :: 0 <= i < |Ring| ==> Ring[i].value == Some(Elements[i]))
      && Distinct(Elements)
      && header.after == (if |Ring| == 0 then header else Ring[0])
      && header.before == (if |Ring| == 0 then header else Ring[|Ring| - 1])
      && (0 < |Ring| ==> Ring[0].before == header && Ring[|Ring| - 1].after == header)
      && (forall i {:trigger Ring[i].after} :: 0 <= i < |Ring| - 1 ==> Ring[i].after == Ring[i + 1])
      && (forall i {:trigger Ring[i].before} :: 0 < i < |Ring| ==> Ring[i].before == Ring[i - 1])
    }

    /** The ring and the hash set hold the same elements. */
    ghost predicate Valid()
      reads this, Repr
    {
      RingValid() && hashed == set x | x in Elements
    }

    /** An empty set, then the elements of `initial` added in order. */
    constructor (initial: seq<K>)
      ensures Valid() && fresh(Repr)
      ensures Elements == AddAll([], initial)
    {
      hashed := {};
      header := new LinkedEntry(None);
      Ring, Elements := [], [];
      new;
      // initChain: the header alone forms the ring
      header.after := header;
      header.before := header;
      Repr := {this, header};
      InitializeElements(initial);
    }

    /** Adds each element of `elements` in order. */
    method InitializeElements(elements: seq<K>)
      requires Valid()
      modifies Repr
      ensures Valid() && fresh(Repr - old(Repr))
      ensures Elements == AddAll(old(Elements), elements)
    {
      var i := 0;
      while i < |elements|
        invariant 0 <= i <= |elements|
        invariant Valid() && fresh(Repr - old(Repr))
        invariant Elements == AddAll(old(Elements), elements[..i])
      {
        var _ := Add(elements[i]);
        assert elements[..i + 1][..i] == elements[..i];
        i := i + 1;
      }
      assert elements[..i] == elements;
    }

    /** Adds `value` at the end of the order unless present; true exactly when it was absent. */
    method Add(value: K) returns (added: bool)
      requires Valid()
      modifies Repr
      ensures Valid() && fresh(Repr - old(Repr))
      ensures added <==> value !in old(Elements)
      ensures Elements == if added then old(Elements) + [value] else old(Elements)
    {
      var result := value !in hashed;
      hashed := hashed + {value};
      if result == false {
        return false;
      }
      added := CreateEntry(value);
    }

    /** Links a fresh entry for `value` just before the header, that is, last. */
    method CreateEntry(value: K) returns (b: bool)
      requires RingValid() && value !in Elements
      requires hashed == (set x | x in Elements) + {value}
      modifies Repr
      ensures Valid() && fresh(Repr - old(Repr))
      ensures Elements == old(Elements) + [value]
      ensures b
    {
      ghost var R := Ring;
      var e := new LinkedEntry(Some(value));
      e.AddBefore(header);
      Ring, Elements, Repr := Ring + [e], Elements + [value], Repr + {e};
      DistinctAppend(R, e);
      DistinctAppend(old(Elements), value);
      forall i {:trigger Ring[i].after} | 0 <= i < |Ring| - 1
        ensures Ring[i].after == Ring[i + 1]
      {
        if i + 1 < |R| {
          DistinctAt(R, i, |R| - 1);
        }
      }
      forall i {:trigger Ring[i].before} | 0 < i < |Ring|
        ensures Ring[i].before == Ring[i - 1]
      {
      }
      return true;
    }

    /** Removes `value`; true exactly when it was present. The others keep their order. */
    method Remove(value: K) returns (removed: bool)
      requires Valid()
      modifies Repr
      ensures Valid() && Repr == old(Repr)
      ensures removed <==> value in old(Elements)
      ensures !removed ==> Elements == old(Elements)
      ensures removed ==> exists k :: 0 <= k < |old(Elements)| && old(Elements)[k] == value &&
                                      Elements == RemoveAt(old(Elements), k)
    {
      var result := value in hashed;
      hashed := hashed - {value};
      if result == false {
        return false;
      }
      UnlinkValue(value);
      return true;
    }

    /** The walk of `remove`: iterates in order to the entry holding `value` and unlinks it. */
    method UnlinkValue(value: K)
      requires RingValid() && value in Elements
      requires hashed == (set x | x in Elements) - {value}
      modifies Repr
      ensures Valid() && Repr == old(Repr)
      ensures exists k :: 0 <= k < |old(Elements)| && old(Elements)[k] == value &&
                          Elements == RemoveAt(old(Elements), k)
    {
      var linkedIter := Iterator();
      var more := linkedIter.HasNext();
      while more
        invariant linkedIter.Valid() && linkedIter.linkedSet == this
        invariant more <==> linkedIter.Index < |Ring|
        invariant RingValid() && Repr == old(Repr) && Elements == old(Elements) && Ring == old(Ring)
        invariant hashed == old(hashed)
        invariant value in Elements[linkedIter.Index..]
        decreases |Ring| - linkedIter.Index
      {
        ghost var k := linkedIter.Index;
        var val := linkedIter.Next();
        if val.Equals(Present(value)) == true {
          Unlink(val, k);
          return;
        }
        more := linkedIter.HasNext();
      }
      assert false;
    }

    /**
     * The pointer work of `Unlink`: `val.remove()` joins the neighbours of
     * `Ring[k]`, after which the links follow `Ring` without position `k`.
     */
    method Detach(e: LinkedEntry<K>, ghost k: nat)
      requires RingValid() && k < |Ring| && e == Ring[k]
      modifies Repr
      ensures Repr == old(Repr) && hashed == old(hashed) && header == old(header)
      ensures Ring == RemoveAt(old(Ring), k) && Elements == RemoveAt(old(Elements), k)
      ensures header.value == None
      ensures header.after == (if |Ring| == 0 then header else Ring[0])
      ensures header.before == (if |Ring| == 0 then header else Ring[|Ring| - 1])
      ensures 0 < |Ring| ==> Ring[0].before == header && Ring[|Ring| - 1].after == header
      ensures forall i {:trigger Ring[i].after} :: 0 <= i < |Ring| - 1 ==> Ring[i].after == Ring[i + 1]
      ensures forall i {:trigger Ring[i].before} :: 0 < i < |Ring| ==> Ring[i].before == Ring[i - 1]
      ensures forall i :: 0 <= i < |Ring| ==> Ring[i].value == Some(Elements[i])
    {
      ghost var R := Ring;
      ghost var E := Elements;
      ghost var previous := if 0 < k then R[k - 1] else header;
      ghost var following := if k + 1 < |R| then R[k + 1] else header;
      assert e.before == previous && e.after == following;
      e.Remove();
      assert previous.after == following && following.before == previous;
      Ring, Elements := RemoveAt(R, k), RemoveAt(E, k);
      RemoveAtProperties(R, k);
      RemoveAtProperties(E, k);
      RemoveAtValues(R, E, k);
      forall i {:trigger Ring[i].after} | 0 <= i < |Ring| - 1
        ensures Ring[i].after == Ring[i + 1]
      {
        if 0 < k && i + 1 != k {
          DistinctAt(R, if i + 1 < k then i else i + 1, k - 1);
        }
      }
      forall i {:trigger Ring[i].before} | 0 < i < |Ring|
        ensures Ring[i].before == Ring[i - 1]
      {
        if k + 1 < |R| && i != k {
          DistinctAt(R, if i < k then i else i + 1, k + 1);
        }
      }
    }

    /** Takes `Ring[k]` out of the ring; its value leaves `Elements` and the hash set. */
    method Unlink(e: LinkedEntry<K>, ghost k: nat)
      requires RingValid() && k < |Ring| && e == Ring[k]
      requires hashed == (set x | x in Elements) - {Elements[k]}
      modifies Repr
      ensures Valid() && Repr == old(Repr)
      ensures Elements == RemoveAt(old(Elements), k)
    {
      ghost var R, E := Ring, Elements;
      Detach(e, k);
      RemoveAtProperties(R, k);
      RemoveAtProperties(E, k);
      assert header !in Ring by {
        forall i | 0 <= i < |Ring|
          ensures Ring[i] != header
        {
          assert Ring[i] == R[if i < k then i else i + 1];
        }
      }
    }

    /** Empties both the hash set and the ring. */
    method Clear()
      requires Valid()
      modifies this, header
      ensures Valid() && Repr == old(Repr) && Elements == []
    {
      hashed := {};
      header.after := header;
      header.before := header;
      Ring, Elements := [], [];
    }

    /** An iterator over the entries in insertion order. */
    method Iterator() returns (iter: LinkedIterator<K>)
      requires RingValid()
      ensures fresh(iter) && iter.Valid() && iter.linkedSet == this && iter.Index == 0
    {
      iter := new LinkedIterator(this);
    }

    /** The sentinel entry. */
    function GetHeader(): (r: LinkedEntry<K>)
      reads this, Repr
      requires RingValid()
      ensures r.value == None && r !in Ring
    {
      header
    }
  }

  /** The Java-style iterator over a set's entries, from `header.after` round to the header. */
  class LinkedIterator<K(==)> {
    var header: LinkedEntry<K>
    var next_Entry: LinkedEntry?<K>
    var lastReturned: LinkedEntry?<K>
    ghost const linkedSet: LinkedHashSet<K>
    /** How many entries have been returned. */
    ghost var Index: nat

    ghost predicate Valid()
      reads this, linkedSet, linkedSet.Repr
    {
      && this !in linkedSet.Repr
      && linkedSet.RingValid()
      && header == linkedSet.header
      && Index <= |linkedSet.Ring|
      && next_Entry == if Index < |linkedSet.Ring| then linkedSet.Ring[Index] else header
    }

    constructor (s: LinkedHashSet<K>)
      requires s.RingValid()
      ensures Valid() && linkedSet == s && Index == 0 && lastReturned == null
    {
      header := s.GetHeader();
      next_Entry := s.GetHeader().after;
      lastReturned := null;
      linkedSet := s;
      Index := 0;
    }

    /** True exactly when some entry remains. */
    method HasNext() returns (b: bool)
      requires Valid()
      ensures b <==> Index < |linkedSet.Ring|
    {
      b := next_Entry != header;
    }

    /** The next entry, advancing; null once the ring is exhausted. */
    method Next() returns (e: LinkedEntry?<K>)
      requires Valid()
      modifies this
      ensures Valid()
      ensures old(Index) < |linkedSet.Ring| ==> e == linkedSet.Ring[old(Index)] && Index == old(Index) + 1
      ensures old(Index) == |linkedSet.Ring| ==> e == null && Index == old(Index)
    {
      e := NextEntry();
    }

    /** The next entry's value (`_next`); the source dereferences the entry unchecked, so one must remain. */
    method NextValue() returns (v: Option<K>)
      requires Valid() && Index < |linkedSet.Ring|
      modifies this
      ensures Valid() && Index == old(Index) + 1
      ensures v == Some(linkedSet.Elements[old(Index)])
    {
      var e := Next();
      v := e.GetValue();
    }

    method NextEntry() returns (e: LinkedEntry?<K>)
      requires Valid()
      modifies this
      ensures Valid()
      ensures old(Index) < |linkedSet.Ring| ==> e == linkedSet.Ring[old(Index)] && Index == old(Index) + 1
      ensures old(Index) == |linkedSet.Ring| ==> e == null && Index == old(Index)
    {
      var c := Check();
      if c == false {
        return null;
      }
      e := next_Entry;
      lastReturned := e;
      next_Entry := e.after;
      Index := Index + 1;
    }

    method Check() returns (b: bool)
      requires Valid()
      ensures b <==> Index < |linkedSet.Ring|
    {
      if next_Entry == header {
        return false;
      }
      return true;
    }
  }
}
