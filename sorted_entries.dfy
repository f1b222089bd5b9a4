/**
 * The abstract contents of a navigable map: its entries in ascending key
 * order, with the map operations defined on that sequence.
 */
module SortedEntries {
  import opened Wrappers
  import opened Keys

  /** One key/value mapping (`MapEntry` in the source). */
  datatype Entry<V> = Entry(key: Key, value: V)

  /** The keys of the entries, in order. */
  function KeysOfEntries<V>(es: seq<Entry<V>>): (ks: seq<Key>)
    ensures |ks| == |es| && forall i :: 0 <= i < |es| ==> ks[i] == es[i].key
  {
    seq(|es|, i requires 0 <= i < |es| => es[i].key)
  }

  /** Entries in strictly ascending key order: a well-formed map. */
  ghost predicate Ordered<V>(es: seq<Entry<V>>)
  {
    StrictlySorted(KeysOfEntries(es))
  }

  /** The value mapped to `k`, if any. */
  function Lookup<V>(es: seq<Entry<V>>, k: Key): Option<V>
  {
    if es == [] then None
    else if es[0].key == k then Some(es[0].value)
    else Lookup(es[1..], k)
  }

  /** Maps `k` to `v`: replaces the value of an existing key, else inserts the entry in key order. */
  function Put<V>(es: seq<Entry<V>>, k: Key, v: V): seq<Entry<V>>
  {
    var f := FloorIndex(KeysOfEntries(es), k);
    if f >= 0 && es[f].key == k then es[f := Entry(k, v)]
    else es[..f + 1] + [Entry(k, v)] + es[f + 1..]
  }

  /** Removes the mapping for `k`, if any. */
  function Delete<V>(es: seq<Entry<V>>, k: Key): seq<Entry<V>>
  {
    var f := FloorIndex(KeysOfEntries(es), k);
    if f >= 0 && es[f].key == k then es[..f] + es[f + 1..] else es
  }

  /** In a well-formed map, the entry at position `i` is what `Lookup` finds for its key. */
  lemma {:induction false} LookupAt<V>(es: seq<Entry<V>>, i: nat)
    requires Ordered(es) && i < |es|
    ensures Lookup(es, es[i].key) == Some(es[i].value)
    decreases i
  {
    if i > 0 {
      CompareIsTotalOrder(es[0].key, es[i].key, es[0].key);
      assert KeysOfEntries(es[1..]) == KeysOfEntries(es)[1..];
      LookupAt(es[1..], i - 1);
    }
  }

  /** A key that no entry carries is unmapped. */
  lemma {:induction false} LookupMissing<V>(es: seq<Entry<V>>, k: Key)
    requires forall i :: 0 <= i < |es| ==> es[i].key != k
    ensures Lookup(es, k) == None
    decreases |es|
  {
    if es != [] {
      LookupMissing(es[1..], k);
    }
  }

  /** `Lookup` answers through the floor position of the key. */
  lemma LookupFloor<V>(es: seq<Entry<V>>, k: Key)
    requires Ordered(es)
    ensures var f := FloorIndex(KeysOfEntries(es), k);
            Lookup(es, k) == if f >= 0 && es[f].key == k then Some(es[f].value) else None
  {
    var ks := KeysOfEntries(es);
    FoundAtFloor(ks, k);
    var f := FloorIndex(ks, k);
    if f >= 0 && es[f].key == k {
      LookupAt(es, f);
    } else {
      LookupMissing(es, k);
    }
  }

  /** `Put` keeps a map well-formed. */
  lemma PutOrdered<V>(es: seq<Entry<V>>, k: Key, v: V)
    requires Ordered(es)
    ensures Ordered(Put(es, k, v))
  {
    var ks := KeysOfEntries(es);
    var f := FloorIndex(ks, k);
    var es' := Put(es, k, v);
    if !(f >= 0 && es[f].key == k) {
      forall i, j | 0 <= i < j < |es'|
        ensures Less(es'[i].key, es'[j].key)
      {
        if j == f + 1 && i < f {
          CompareIsTotalOrder(es[i].key, es[f].key, k);
        } else if i == f + 1 && j > f + 2 {
          assert es'[j] == es[j - 1];
          CompareIsTotalOrder(k, es[f + 1].key, es[j - 1].key);
        } else if i == f + 1 {
          assert es'[j] == es[j - 1];
        } else if j == f + 1 {
          CompareIsTotalOrder(k, es[f].key, k);
          CompareIsTotalOrder(es[f].key, k, k);
        } else if i < f + 1 && j > f + 1 {
          assert es'[i] == es[i] && es'[j] == es[j - 1];
        } else if i > f + 1 {
          assert es'[i] == es[i - 1] && es'[j] == es[j - 1];
        }
      }
    }
  }

  /** Looking up another key is unaffected by overwriting the entry of `k` at position `f`. */
  lemma ReplaceLookup<V>(es: seq<Entry<V>>, f: nat, k: Key, v: V, j: Key)
    requires Ordered(es) && f < |es| && es[f].key == k && j != k
    requires Ordered(es[f := Entry(k, v)])
    ensures Lookup(es[f := Entry(k, v)], j) == Lookup(es, j)
  {
    var es' := es[f := Entry(k, v)];
    if i :| 0 <= i < |es| && es[i].key == j {
      LookupAt(es, i);
      LookupAt(es', i);
    } else {
      LookupMissing(es, j);
      LookupMissing(es', j);
    }
  }

  /** Looking up another key is unaffected by inserting an entry for `k` after position `f`. */
  lemma InsertLookup<V>(es: seq<Entry<V>>, f: int, k: Key, v: V, j: Key)
    requires Ordered(es) && -1 <= f < |es| && j != k
    requires Ordered(es[..f + 1] + [Entry(k, v)] + es[f + 1..])
    ensures Lookup(es[..f + 1] + [Entry(k, v)] + es[f + 1..], j) == Lookup(es, j)
  {
    var es' := es[..f + 1] + [Entry(k, v)] + es[f + 1..];
    if i :| 0 <= i < |es| && es[i].key == j {
      LookupAt(es, i);
      var t := if i <= f then i else i + 1;
      assert es'[t] == es[i];
      LookupAt(es', t);
    } else {
      LookupMissing(es, j);
      forall t | 0 <= t < |es'|
        ensures es'[t].key != j
      {
        if t > f + 1 {
          assert es'[t] == es[t - 1];
        }
      }
      LookupMissing(es', j);
    }
  }

  /** Putting into the empty map gives the one entry. */
  lemma PutIntoNothing<V>(es: seq<Entry<V>>, k: Key, v: V)
    requires es == []
    ensures Put(es, k, v) == [Entry(k, v)]
  {
    assert KeysOfEntries(es) == [];
    assert es[..0] + [Entry(k, v)] + es[0..] == [Entry(k, v)];
  }

  /** After `Put(es, k, v)`, `k` maps to `v` and every other key keeps its mapping. */
  lemma PutLookup<V>(es: seq<Entry<V>>, k: Key, v: V, j: Key)
    requires Ordered(es)
    ensures Lookup(Put(es, k, v), j) == if j == k then Some(v) else Lookup(es, j)
  {
    var f := FloorIndex(KeysOfEntries(es), k);
    var es' := Put(es, k, v);
    PutOrdered(es, k, v);
    var i := if f >= 0 && es[f].key == k then f else f + 1;
    assert es'[i] == Entry(k, v);
    LookupAt(es', i);
    if j != k {
      if f >= 0 && es[f].key == k {
        ReplaceLookup(es, f, k, v, j);
      } else {
        InsertLookup(es, f, k, v, j);
      }
    }
  }

  /** Dropping any entry keeps a map well-formed. */
  lemma RemoveAtOrdered<V>(es: seq<Entry<V>>, f: nat)
    requires Ordered(es) && f < |es|
    ensures Ordered(es[..f] + es[f + 1..])
  {
    var es' := es[..f] + es[f + 1..];
    forall i, j | 0 <= i < j < |es'|
      ensures Less(es'[i].key, es'[j].key)
    {
      var i', j' := if i < f then i else i + 1, if j < f then j else j + 1;
      assert es'[i] == es[i'] && es'[j] == es[j'];
    }
  }

  /** `Delete` keeps a map well-formed. */
  lemma DeleteOrdered<V>(es: seq<Entry<V>>, k: Key)
    requires Ordered(es)
    ensures Ordered(Delete(es, k))
  {
    var f := FloorIndex(KeysOfEntries(es), k);
    if f >= 0 && es[f].key == k {
      RemoveAtOrdered(es, f);
    }
  }

  /** Dropping the entry at position `f` keeps the mapping of the entry at another position `i`. */
  lemma RemoveAtKeeps<V>(es: seq<Entry<V>>, f: nat, i: nat)
    requires Ordered(es) && f < |es| && i < |es| && i != f
    ensures Lookup(es[..f] + es[f + 1..], es[i].key) == Some(es[i].value)
  {
    var es' := es[..f] + es[f + 1..];
    RemoveAtOrdered(es, f);
    var t := if i < f then i else i - 1;
    assert es'[t] == es[i];
    LookupAt(es', t);
  }

  /** Dropping the entry at position `f` leaves unmapped a key no other entry carries. */
  lemma RemoveAtMissing<V>(es: seq<Entry<V>>, f: nat, j: Key)
    requires f < |es| && forall i :: 0 <= i < |es| && i != f ==> es[i].key != j
    ensures Lookup(es[..f] + es[f + 1..], j) == None
  {
    var es' := es[..f] + es[f + 1..];
    forall t | 0 <= t < |es'|
      ensures es'[t].key != j
    {
      var t' := if t < f then t else t + 1;
      assert es'[t] == es[t'];
    }
    LookupMissing(es', j);
  }

  /** Dropping the entry at position `f` unmaps its key and nothing else. */
  lemma RemoveAtLookup<V>(es: seq<Entry<V>>, f: nat, j: Key)
    requires Ordered(es) && f < |es|
    ensures Lookup(es[..f] + es[f + 1..], j) == if j == es[f].key then None else Lookup(es, j)
  {
    if i :| 0 <= i < |es| && es[i].key == j && i != f {
      LookupAt(es, i);
      CompareIsTotalOrder(es[i].key, es[f].key, es[i].key);
      RemoveAtKeeps(es, f, i);
    } else {
      RemoveAtMissing(es, f, j);
      if j != es[f].key {
        LookupMissing(es, j);
      }
    }
  }

  /** After `Delete(es, k)`, `k` is unmapped and every other key keeps its mapping. */
  lemma DeleteLookup<V>(es: seq<Entry<V>>, k: Key, j: Key)
    requires Ordered(es)
    ensures Lookup(Delete(es, k), j) == if j == k then None else Lookup(es, j)
  {
    var ks := KeysOfEntries(es);
    var f := FloorIndex(ks, k);
    FoundAtFloor(ks, k);
    if f >= 0 && es[f].key == k {
      RemoveAtLookup(es, f, j);
    } else if j == k {
      LookupMissing(es, k);
    }
  }

  /** In a well-formed map, a key is mapped exactly when some entry carries it, and then to that entry's value. */
  lemma LookupMember<V>(es: seq<Entry<V>>, k: Key)
    requires Ordered(es)
    ensures Lookup(es, k).Some? <==> k in KeysOfEntries(es)
    ensures Lookup(es, k).Some? ==> Entry(k, Lookup(es, k).value) in es
  {
    LookupFloor(es, k);
    FoundAtFloor(KeysOfEntries(es), k);
  }

  /** The map built by putting the entries of `xs` into `es`, in order (the map constructor's loop). */
  function PutAll<V>(es: seq<Entry<V>>, xs: seq<Entry<V>>): seq<Entry<V>>
  {
    if xs == [] then es
    else Put(PutAll(es, xs[..|xs| - 1]), xs[|xs| - 1].key, xs[|xs| - 1].value)
  }

  /** Putting one more entry of `xs` extends the map built from the entries before it. */
  lemma PutAllStep<V>(xs: seq<Entry<V>>, i: nat)
    requires i < |xs|
    ensures PutAll([], xs[..i + 1]) == Put(PutAll([], xs[..i]), xs[i].key, xs[i].value)
  {
    assert xs[..i + 1][..i] == xs[..i];
  }

  /** The value of the last entry of `xs` for `k`, if any: the one a later put leaves in place. */
  function LastValue<V>(xs: seq<Entry<V>>, k: Key): Option<V>
  {
    if xs == [] then None
    else if xs[|xs| - 1].key == k then Some(xs[|xs| - 1].value)
    else LastValue(xs[..|xs| - 1], k)
  }

  /**
   * Putting a sequence of entries into a map keeps it well formed; afterwards
   * each key of the sequence maps to its last value there, and every other key
   * keeps its old mapping.
   */
  lemma {:induction false} PutAllLookup<V>(es: seq<Entry<V>>, xs: seq<Entry<V>>, k: Key)
    requires Ordered(es)
    ensures Ordered(PutAll(es, xs))
    ensures Lookup(PutAll(es, xs), k) == if LastValue(xs, k).Some? then LastValue(xs, k) else Lookup(es, k)
    decreases |xs|
  {
    if xs != [] {
      var init, x := xs[..|xs| - 1], xs[|xs| - 1];
      PutAllLookup(es, init, k);
      PutOrdered(PutAll(es, init), x.key, x.value);
      PutLookup(PutAll(es, init), x.key, x.value, k);
    }
  }
}
