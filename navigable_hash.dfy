/**
 * The skip list behind the navigable map and set.
 *
 * `NavigableHashImpl` keeps a head slot per level and a count of entries; its
 * nodes live in an arena (`nodes`), with the per-level forward (`next`) and
 * backward (`last`) slots holding arena indices. The ghost `Live` lists the
 * arena indices of the stored nodes in ascending key order; `Entries()` is
 * the abstract map, a strictly key-sorted sequence of entries, and every
 * operation is specified against the reference definitions in
 * `SortedEntries` and `Keys`.
 */
module NavigableHash {
  import opened Wrappers
  import opened Keys
  import opened SkipLevels
  import opened SortedEntries

  /** The entries of the nodes of `live`, in order. */
  function EntriesOf<V>(nodes: seq<Node<V>>, live: seq<nat>): (es: seq<Entry<V>>)
    requires InArena(nodes, live)
    ensures |es| == |live| && KeysOfEntries(es) == KeysOf(nodes, live)
  {
    seq(|live|, i requires 0 <= i < |live| => Entry(nodes[live[i]].key, nodes[live[i]].value))
  }

  /** `nodes'` keeps (at least) the nodes of `nodes`, with their keys and values. */
  ghost predicate KeepsEntries<V>(nodes: seq<Node<V>>, nodes': seq<Node<V>>)
  {
    |nodes| <= |nodes'| &&
    forall x :: 0 <= x < |nodes| ==> nodes'[x].key == nodes[x].key && nodes'[x].value == nodes[x].value
  }

  lemma EntriesKept<V>(nodes: seq<Node<V>>, nodes': seq<Node<V>>, live: seq<nat>)
    requires InArena(nodes, live) && KeepsEntries(nodes, nodes')
    ensures InArena(nodes', live) && EntriesOf(nodes', live) == EntriesOf(nodes, live)
  {
  }

  lemma EntriesInsert<V>(nodes: seq<Node<V>>, nodes': seq<Node<V>>, live: seq<nat>, c: nat, n: nat)
    requires InArena(nodes, live) && KeepsEntries(nodes, nodes') && c <= |live| && n < |nodes'|
    ensures InArena(nodes', live[..c] + [n] + live[c..])
    ensures var es := EntriesOf(nodes, live);
            EntriesOf(nodes', live[..c] + [n] + live[c..]) == es[..c] + [Entry(nodes'[n].key, nodes'[n].value)] + es[c..]
  {
    var live' := live[..c] + [n] + live[c..];
    var es := EntriesOf(nodes, live);
    var es' := es[..c] + [Entry(nodes'[n].key, nodes'[n].value)] + es[c..];
    assert InArena(nodes', live') by {
      forall i | 0 <= i < |live'|
        ensures live'[i] < |nodes'|
      {
        if i > c {
          assert live'[i] == live[i - 1];
        }
      }
    }
    forall i | 0 <= i < |live'|
      ensures EntriesOf(nodes', live')[i] == es'[i]
    {
      if i > c {
        assert live'[i] == live[i - 1];
      }
    }
  }

  /** A node put in front of `live` adds its entry in front. */
  lemma EntriesFront<V>(nodes: seq<Node<V>>, nodes': seq<Node<V>>, live: seq<nat>, n: nat)
    requires InArena(nodes, live) && KeepsEntries(nodes, nodes') && n < |nodes'|
    ensures InArena(nodes', [n] + live)
    ensures EntriesOf(nodes', [n] + live) == [Entry(nodes'[n].key, nodes'[n].value)] + EntriesOf(nodes, live)
  {
    EntriesInsert(nodes, nodes', live, 0, n);
    assert live[..0] + [n] + live[0..] == [n] + live;
  }

  lemma EntriesRemove<V>(nodes: seq<Node<V>>, nodes': seq<Node<V>>, live: seq<nat>, p: nat)
    requires InArena(nodes, live) && KeepsEntries(nodes, nodes') && p < |live|
    ensures InArena(nodes', live[..p] + live[p + 1..])
    ensures var es := EntriesOf(nodes, live);
            EntriesOf(nodes', live[..p] + live[p + 1..]) == es[..p] + es[p + 1..]
  {
    var live' := live[..p] + live[p + 1..];
    var es := EntriesOf(nodes, live);
    forall i | 0 <= i < |live'|
      ensures live'[i] < |nodes'| && EntriesOf(nodes', live')[i] == (es[..p] + es[p + 1..])[i]
    {
      if i >= p {
        assert live'[i] == live[i + 1];
      }
    }
  }

  lemma EntriesUpdate<V>(nodes: seq<Node<V>>, live: seq<nat>, f: nat, v: V)
    requires InArena(nodes, live) && Distinct(live) && f < |live|
    ensures var nodes' := nodes[live[f] := nodes[live[f]].(value := v)];
            EntriesOf(nodes', live) == EntriesOf(nodes, live)[f := Entry(nodes[live[f]].key, v)]
  {
    DistinctAt(live, f);
  }

  /**
   * The node comparator: identical references compare equal; otherwise an
   * absent first node sorts first, an absent second node last, and two
   * nodes compare by key. Node references are arena indices.
   */
  function NodeCompare<V>(nodes: seq<Node<V>>, o1: JsValue<nat>, o2: JsValue<nat>): (r: int)
    requires o1.Present? ==> o1.value < |nodes|
    requires o2.Present? ==> o2.value < |nodes|
    ensures o1 == o2 ==> r == 0
    ensures o1 != o2 && !o1.Present? ==> r == -1
    ensures o1.Present? && !o2.Present? ==> r == 1
    ensures o1.Present? && o2.Present? ==> r == Compare(nodes[o1.value].key, nodes[o2.value].key)
  {
    if o1 == o2 then 0
    else if o1.Undefined? || o1.Null? then -1
    else if o2.Undefined? || o2.Null? then 1
    else Compare(nodes[o1.value].key, nodes[o2.value].key)
  }

  /** Between two absent nodes the comparator is not antisymmetric: each sorts before the other. */
  lemma NodeCompareAbsentBothFirst<V>(nodes: seq<Node<V>>)
    ensures NodeCompare(nodes, Undefined, Null) == -1 && NodeCompare(nodes, Null, Undefined) == -1
  {
  }

  /** On the stored nodes the comparator follows their order. */
  lemma NodeCompareFollowsOrder<V>(nodes: seq<Node<V>>, live: seq<nat>, i: nat, j: nat)
    requires Sorted(nodes, live) && i < |live| && j < |live|
    ensures NodeCompare(nodes, Present(live[i]), Present(live[j])) == (if i < j then -1 else if i == j then 0 else 1)
  {
    var ks := KeysOf(nodes, live);
    assert ks[i] == nodes[live[i]].key && ks[j] == nodes[live[j]].key;
    CompareIsTotalOrder(ks[i], ks[j], ks[i]);
  }

  /**
   * Node equality: two absent nodes are equal when they are the same absent
   * value; present nodes are equal when their keys are.
   */
  function NodeEquals<V>(nodes: seq<Node<V>>, o1: JsValue<nat>, o2: JsValue<nat>): (r: bool)
    requires o1.Present? ==> o1.value < |nodes|
    requires o2.Present? ==> o2.value < |nodes|
    ensures !o1.Present? ==> (r <==> o1 == o2)
    ensures o1.Present? ==> (r <==> o2.Present? && nodes[o1.value].key == nodes[o2.value].key)
  {
    if o1.Undefined? then o2.Undefined?
    else if o1.Null? then o2.Null?
    else if o2.Null? || o2.Undefined? then false
    else Compare(nodes[o1.value].key, nodes[o2.value].key) == 0
  }

  /** Among the stored nodes, equality is identity. */
  lemma NodeEqualsIsIdentity<V>(nodes: seq<Node<V>>, live: seq<nat>, i: nat, j: nat)
    requires Sorted(nodes, live) && i < |live| && j < |live|
    ensures NodeEquals(nodes, Present(live[i]), Present(live[j])) <==> i == j
  {
    var ks := KeysOf(nodes, live);
    assert ks[i] == nodes[live[i]].key && ks[j] == nodes[live[j]].key;
    CompareIsTotalOrder(ks[i], ks[j], ks[i]);
  }

  /**
   * What the searches rely on: every head slot holds a stored node, level 0
   * runs through all of `live` in order, and every forward slot of a stored
   * node leads to a stored node further on.
   */
  ghost predicate Navigable<V>(nodes: seq<Node<V>>, head: seq<Ptr>, live: seq<nat>)
  {
    && |head| == Height
    && Sorted(nodes, live)
    && head[0] == (if live == [] then None else Some(live[0]))
    && (forall h :: 0 <= h < Height && head[h].Some? ==> head[h].value in live)
    && (forall p :: 0 <= p < |live| ==>
          1 <= |nodes[live[p]].next| && nodes[live[p]].next[0] == (if p + 1 < |live| then Some(live[p + 1]) else None))
    && (forall p, g :: 0 <= p < |live| && 0 <= g < |nodes[live[p]].next| && nodes[live[p]].next[g].Some? ==>
          nodes[live[p]].next[g].value in live[p + 1..])
  }

  lemma WellLinkedNavigable<V>(nodes: seq<Node<V>>, head: seq<Ptr>, live: seq<nat>)
    requires WellLinked(nodes, head, live)
    ensures Navigable(nodes, head, live)
  {
    BaseLevel(nodes, head, live);
    forall h | 0 <= h < Height && head[h].Some?
      ensures head[h].value in live
    {
      HeadIsLive(nodes, head, live, h);
    }
    forall p | 0 <= p < |live|
      ensures 1 <= |nodes[live[p]].next| && nodes[live[p]].next[0] == (if p + 1 < |live| then Some(live[p + 1]) else None)
    {
      assert Tall(nodes, live[p], 0);
    }
    forall p, g | 0 <= p < |live| && 0 <= g < |nodes[live[p]].next| && nodes[live[p]].next[g].Some?
      ensures nodes[live[p]].next[g].value in live[p + 1..]
    {
      StepForward(nodes, head, live, g, p);
      var q :| p < q < |live| && live[q] == nodes[live[p]].next[g].value;
      assert live[p + 1..][q - p - 1] == live[q];
    }
  }

  /** The position in `live` of the node in head slot `h`. */
  lemma HeadIndex<V>(nodes: seq<Node<V>>, head: seq<Ptr>, live: seq<nat>, h: nat) returns (q: nat)
    requires Navigable(nodes, head, live) && h < Height && head[h].Some?
    ensures q < |live| && live[q] == head[h].value
  {
    q :| 0 <= q < |live| && live[q] == head[h].value;
  }

  /** The position in `live` of the level-`g` successor of `live[p]`: further on. */
  lemma NextIndex<V>(nodes: seq<Node<V>>, head: seq<Ptr>, live: seq<nat>, p: nat, g: nat) returns (q: nat)
    requires Navigable(nodes, head, live) && p < |live| && g < |nodes[live[p]].next| && nodes[live[p]].next[g].Some?
    ensures p < q < |live| && live[q] == nodes[live[p]].next[g].value
  {
    var v := nodes[live[p]].next[g].value;
    assert v in live[p + 1..];
    var j :| 0 <= j < |live| - p - 1 && live[p + 1..][j] == v;
    q := p + 1 + j;
  }

  /** The level-0 successor of the stored node `live[p]` is the next stored node. */
  lemma Successor<V>(nodes: seq<Node<V>>, head: seq<Ptr>, live: seq<nat>, p: nat)
    requires Navigable(nodes, head, live) && p < |live|
    ensures 1 <= |nodes[live[p]].next| && nodes[live[p]].next[0] == if p + 1 < |live| then Some(live[p + 1]) else None
  {
  }

  /**
   * The descent through the head slots, highest first, that floorEntry and
   * getEntry begin with: it stops at a head holding `key` itself (`exact`),
   * or at the first head whose key is below `key`.
   */
  method HeadsAtMost<V>(nodes: seq<Node<V>>, head: seq<Ptr>, ghost live: seq<nat>, key: Key)
      returns (node: Ptr, exact: bool, ghost p: nat)
    requires Navigable(nodes, head, live) && live != []
    ensures node.Some? ==> p < |live| && node == Some(live[p])
    ensures exact ==> node.Some? && KeysOf(nodes, live)[p] == key
    ensures !exact && node.Some? ==> Less(KeysOf(nodes, live)[p], key)
    ensures node.None? ==> !exact && Less(key, KeysOf(nodes, live)[0])
  {
    ghost var ks := KeysOf(nodes, live);
    node, exact, p := None, false, 0;
    var loop := 0;
    while loop < Height && node.None?
      invariant 0 <= loop <= Height && !exact
      invariant node.Some? ==> p < |live| && node == Some(live[p]) && Less(ks[p], key)
      invariant node.None? && loop == Height ==> Less(key, ks[0])
    {
      var tmp := head[Height - 1 - loop];
      if tmp.Some? {
        ghost var q := HeadIndex(nodes, head, live, Height - 1 - loop);
        var cmp := Compare(nodes[tmp.value].key, key);
        if cmp == 0 {
          return tmp, true, q;
        }
        if cmp == -1 {
          node := tmp;
          p := q;
        } else {
          CompareIsTotalOrder(key, ks[q], key);
        }
      }
      loop := loop + 1;
    }
  }

  /**
   * The descent through the head slots, highest first, that lowerEntry
   * begins with: it stops at the first head whose key is below `key`.
   */
  method HeadsBelow<V>(nodes: seq<Node<V>>, head: seq<Ptr>, ghost live: seq<nat>, key: Key)
      returns (node: Ptr, ghost p: nat)
    requires Navigable(nodes, head, live) && live != []
    ensures node.Some? ==> p < |live| && node == Some(live[p]) && Less(KeysOf(nodes, live)[p], key)
    ensures node.None? ==> !Less(KeysOf(nodes, live)[0], key)
  {
    ghost var ks := KeysOf(nodes, live);
    node, p := None, 0;
    var loop := 0;
    while loop < Height && node.None?
      invariant 0 <= loop <= Height
      invariant node.Some? ==> p < |live| && node == Some(live[p]) && Less(ks[p], key)
      invariant node.None? && loop == Height ==> !Less(ks[0], key)
    {
      var tmp := head[Height - 1 - loop];
      if tmp.Some? {
        ghost var q := HeadIndex(nodes, head, live, Height - 1 - loop);
        var cmp := Compare(nodes[tmp.value].key, key);
        if cmp == -1 {
          node := tmp;
          p := q;
        }
      }
      loop := loop + 1;
    }
  }

  /**
   * One step of floorEntry's walk from the stored node `x` = `live[p]`,
   * whose key is below `key`: its forward slots, highest first, are tried
   * for a node holding `key` itself (`exact`) or the first one whose key is
   * still below `key`; none found means the next stored key exceeds `key`.
   */
  method FloorScan<V>(nodes: seq<Node<V>>, head: seq<Ptr>, ghost live: seq<nat>, x: nat, ghost p: nat, key: Key)
      returns (nextNode: Ptr, exact: bool, ghost q: nat)
    requires Navigable(nodes, head, live) && p < |live| && x == live[p] && Less(KeysOf(nodes, live)[p], key)
    ensures nextNode.Some? ==> p < q < |live| && nextNode == Some(live[q])
    ensures exact ==> nextNode.Some? && KeysOf(nodes, live)[q] == key
    ensures !exact && nextNode.Some? ==> Less(KeysOf(nodes, live)[q], key)
    ensures nextNode.None? ==> !exact && (p + 1 < |live| ==> Less(key, KeysOf(nodes, live)[p + 1]))
  {
    ghost var ks := KeysOf(nodes, live);
    nextNode, exact, q := None, false, p;
    var foundEarlierKey := false;
    var loop := 0;
    while loop < |nodes[x].next| && !foundEarlierKey
      invariant 0 <= loop <= |nodes[x].next| && !exact
      invariant foundEarlierKey <==> nextNode.Some?
      invariant foundEarlierKey ==> p < q < |live| && nextNode == Some(live[q]) && Less(ks[q], key)
      invariant !foundEarlierKey && loop == |nodes[x].next| ==> p + 1 < |live| ==> Less(key, ks[p + 1])
    {
      foundEarlierKey := false;
      var g := |nodes[x].next| - loop - 1;
      var test := nodes[x].next[g];
      if g == 0 {
        assert test == if p + 1 < |live| then Some(live[p + 1]) else None;
      }
      if test.Some? {
        ghost var q' := NextIndex(nodes, head, live, p, g);
        var cmp := Compare(key, nodes[test.value].key);
        if cmp == 0 {
          return test, true, q';
        }
        if cmp == 1 {
          CompareIsTotalOrder(key, ks[q'], key);
          foundEarlierKey := true;
          nextNode := test;
          q := q';
        }
      }
      loop := loop + 1;
    }
  }

  /** The node of the greatest key at most `key`: floorEntry. */
  method FloorNode<V>(nodes: seq<Node<V>>, head: seq<Ptr>, ghost live: seq<nat>, count: int, key: Key) returns (r: Ptr)
    requires Navigable(nodes, head, live) && count == |live|
    ensures var f := FloorIndex(KeysOf(nodes, live), key);
            r == if f < 0 then None else Some(live[f])
  {
    if count < 1 {
      return None;
    }
    ghost var ks := KeysOf(nodes, live);
    var node, exact;
    ghost var p;
    node, exact, p := HeadsAtMost(nodes, head, live, key);
    if exact {
      FloorAt(ks, key, p);
      return node;
    }
    if node.None? {
      FloorAt(ks, key, -1);
      return None;
    }
    while true
      invariant p < |live| && node == Some(live[p]) && Less(ks[p], key)
      decreases |live| - p
    {
      var nextNode, found;
      ghost var q;
      nextNode, found, q := FloorScan(nodes, head, live, node.value, p, key);
      if found {
        FloorAt(ks, key, q);
        return nextNode;
      }
      if nextNode.None? {
        CompareIsTotalOrder(ks[p], key, key);
        FloorAt(ks, key, p);
        return node;
      }
      node := nextNode;
      p := q;
    }
  }

  /**
   * One step of lowerEntry's walk from the stored node `x` = `live[p]`,
   * whose successor's key is below `key` too: its forward slots, highest
   * first, are tried for the first one whose key is below `key`.
   */
  method LowerScan<V>(nodes: seq<Node<V>>, head: seq<Ptr>, ghost live: seq<nat>, x: nat, ghost p: nat, key: Key)
      returns (node: Ptr, ghost q: nat)
    requires Navigable(nodes, head, live) && p + 1 < |live| && x == live[p]
    requires Less(KeysOf(nodes, live)[p + 1], key)
    ensures p < q < |live| && node == Some(live[q]) && Less(KeysOf(nodes, live)[q], key)
  {
    ghost var ks := KeysOf(nodes, live);
    node, q := Some(x), p;
    var done := false;
    var height := 0;
    while !done && height < |nodes[x].next|
      invariant 0 <= height <= |nodes[x].next|
      invariant done ==> p < q < |live| && node == Some(live[q]) && Less(ks[q], key)
      invariant !done ==> height < |nodes[x].next|
    {
      var g := |nodes[x].next| - height - 1;
      var nn := nodes[x].next[g];
      if g == 0 {
        assert nn == Some(live[p + 1]);
      }
      if nn.Some? {
        ghost var q' := NextIndex(nodes, head, live, p, g);
        var cmpnn := Compare(nodes[nn.value].key, key);
        if cmpnn == -1 {
          node := nn;
          done := true;
          q := q';
        }
      }
      height := height + 1;
    }
  }

  /** The node of the greatest key below `key`: lowerEntry. */
  method LowerNode<V>(nodes: seq<Node<V>>, head: seq<Ptr>, ghost live: seq<nat>, count: int, key: Key) returns (r: Ptr)
    requires Navigable(nodes, head, live) && count == |live|
    ensures var l := LowerIndex(KeysOf(nodes, live), key);
            r == if l < 0 then None else Some(live[l])
  {
    if count < 1 {
      return None;
    }
    ghost var ks := KeysOf(nodes, live);
    var node;
    ghost var p;
    node, p := HeadsBelow(nodes, head, live, key);
    if node.None? {
      LowerAt(ks, key, -1);
      return None;
    }
    while true
      invariant p < |live| && node == Some(live[p]) && Less(ks[p], key)
      decreases |live| - p
    {
      var x := node.value;
      var tmp := nodes[x].next[0];
      assert tmp == if p + 1 < |live| then Some(live[p + 1]) else None;
      if tmp.None? {
        LowerAt(ks, key, p);
        return node;
      }
      var cmp := Compare(nodes[tmp.value].key, key);
      if cmp == 1 || cmp == 0 {
        LowerAt(ks, key, p);
        return node;
      }
      node, p := LowerScan(nodes, head, live, x, p, key);
    }
  }

  /**
   * One step of getEntry's walk from the stored node `x` = `live[p]`, whose
   * successor's key is below `key` too: its forward slots, highest first,
   * are tried for a node holding `key` itself (`exact`) or the first one
   * whose key is below `key`.
   */
  method FindScan<V>(nodes: seq<Node<V>>, head: seq<Ptr>, ghost live: seq<nat>, x: nat, ghost p: nat, key: Key)
      returns (node: Ptr, exact: bool, ghost q: nat)
    requires Navigable(nodes, head, live) && p + 1 < |live| && x == live[p]
    requires Less(KeysOf(nodes, live)[p + 1], key)
    ensures p < q < |live| && node == Some(live[q])
    ensures exact ==> KeysOf(nodes, live)[q] == key
    ensures !exact ==> Less(KeysOf(nodes, live)[q], key)
  {
    ghost var ks := KeysOf(nodes, live);
    node, exact, q := Some(x), false, p;
    var done := false;
    var height := 0;
    while !done && height < |nodes[x].next|
      invariant 0 <= height <= |nodes[x].next| && !exact
      invariant done ==> p < q < |live| && node == Some(live[q]) && Less(ks[q], key)
      invariant !done ==> height < |nodes[x].next|
    {
      var g := |nodes[x].next| - height - 1;
      var nn := nodes[x].next[g];
      if g == 0 {
        assert nn == Some(live[p + 1]);
      }
      if nn.Some? {
        ghost var q' := NextIndex(nodes, head, live, p, g);
        var cmpnn := Compare(nodes[nn.value].key, key);
        if cmpnn == 0 {
          return nn, true, q';
        }
        if cmpnn == -1 {
          node := nn;
          done := true;
          q := q';
        }
      }
      height := height + 1;
    }
  }

  /** The node holding `key`, if any: getEntry. */
  method FindNode<V>(nodes: seq<Node<V>>, head: seq<Ptr>, ghost live: seq<nat>, count: int, key: Key) returns (r: Ptr)
    requires Navigable(nodes, head, live) && count == |live|
    ensures var ks, f := KeysOf(nodes, live), FloorIndex(KeysOf(nodes, live), key);
            r == if f >= 0 && ks[f] == key then Some(live[f]) else None
  {
    if count < 1 {
      return None;
    }
    ghost var ks := KeysOf(nodes, live);
    var node, exact;
    ghost var p;
    node, exact, p := HeadsAtMost(nodes, head, live, key);
    if exact {
      FloorAt(ks, key, p);
      return node;
    }
    if node.None? {
      FloorAt(ks, key, -1);
      return None;
    }
    while true
      invariant p < |live| && node == Some(live[p]) && Less(ks[p], key)
      decreases |live| - p
    {
      var x := node.value;
      var tmp := nodes[x].next[0];
      assert tmp == if p + 1 < |live| then Some(live[p + 1]) else None;
      if tmp.None? {
        CompareIsTotalOrder(ks[p], key, key);
        FloorAt(ks, key, p);
        return None;
      }
      var cmp := Compare(nodes[tmp.value].key, key);
      if cmp == 0 {
        FloorAt(ks, key, p + 1);
        return tmp;
      }
      if cmp == 1 {
        CompareIsTotalOrder(key, ks[p + 1], key);
        CompareIsTotalOrder(ks[p], key, key);
        FloorAt(ks, key, p);
        return None;
      }
      node, exact, p := FindScan(nodes, head, live, x, p, key);
      if exact {
        FloorAt(ks, key, p);
        return node;
      }
    }
  }

  /**
   * The node of the greatest key: lastEntry, which starts at the highest
   * occupied head slot and keeps following the highest occupied forward slot.
   */
  method LastNode<V>(nodes: seq<Node<V>>, head: seq<Ptr>, ghost live: seq<nat>, count: int) returns (r: Ptr)
    requires Navigable(nodes, head, live) && count == |live|
    ensures r == if live == [] then None else Some(live[|live| - 1])
  {
    if count < 1 {
      return None;
    }
    var node: Ptr := None;
    ghost var p: nat := 0;
    var loop := 0;
    while loop < Height && node.None?
      invariant 0 <= loop <= Height
      invariant node.Some? ==> p < |live| && node == Some(live[p])
      invariant node.None? ==> loop < Height
    {
      node := head[Height - 1 - loop];
      if node.Some? {
        p := HeadIndex(nodes, head, live, Height - 1 - loop);
      }
      loop := loop + 1;
    }
    // The source's follow-up test `node === null && node === undefined` can never hold.
    while nodes[node.value].next[0].Some?
      invariant p < |live| && node == Some(live[p])
      decreases |live| - p
    {
      var foundNext := false;
      var x := node.value;
      ghost var q: nat := p;
      var loop := 0;
      while !foundNext && loop < |nodes[x].next|
        invariant 0 <= loop <= |nodes[x].next|
        invariant foundNext ==> p < q < |live| && node == Some(live[q])
        invariant !foundNext ==> node == Some(x) && loop < |nodes[x].next|
      {
        var g := |nodes[x].next| - loop - 1;
        if nodes[x].next[g].Some? {
          q := NextIndex(nodes, head, live, p, g);
          foundNext := true;
          node := nodes[x].next[g];
        }
        loop := loop + 1;
      }
      p := q;
    }
    Successor(nodes, head, live, p);
    return node;
  }

  /** The first entry of an empty map: a one-level node that becomes the only stored node. */
  lemma PutFirst<V>(nodes: seq<Node<V>>, head: seq<Ptr>, nd: Node<V>)
    requires WellLinked(nodes, head, []) && |nd.next| == 1 && |nd.last| == 1 && nd.next[0] == None && nd.last[0] == None
    ensures WellLinked(nodes + [nd], head[0 := Some(|nodes|)], [|nodes|])
    ensures EntriesOf(nodes + [nd], [|nodes|]) == [Entry(nd.key, nd.value)]
  {
    FirstNode(nodes, head, nd);
    assert (nodes + [nd])[|nodes|] == nd;
  }

  /** An arena that grew by `nd` and kept the shape of its nodes keeps every entry, and holds `nd`'s at the end. */
  lemma AppendKeeps<V>(nodes: seq<Node<V>>, nd: Node<V>, nodes': seq<Node<V>>)
    requires SameShape(nodes + [nd], nodes')
    ensures KeepsEntries(nodes, nodes') && |nodes| < |nodes'|
    ensures nodes'[|nodes|].key == nd.key && nodes'[|nodes|].value == nd.value
  {
    forall x | 0 <= x < |nodes|
      ensures nodes'[x].key == nodes[x].key && nodes'[x].value == nodes[x].value
    {
      assert (nodes + [nd])[x] == nodes[x];
    }
    assert (nodes + [nd])[|nodes|] == nd;
  }

  /** A new key whose floor is stored position `f` fits strictly between that node and the next. */
  lemma FloorNeighbours<V>(nodes: seq<Node<V>>, live: seq<nat>, f: int, key: Key)
    requires Sorted(nodes, live) && f == FloorIndex(KeysOf(nodes, live), key) && f >= 0
    requires nodes[live[f]].key != key
    ensures f < |live| && Less(nodes[live[f]].key, key)
    ensures f + 1 < |live| ==> Less(key, nodes[live[f + 1]].key)
  {
    CompareIsTotalOrder(key, nodes[live[f]].key, key);
  }

  /** A new value in the node holding `key` keeps the links and gives the entries `SortedEntries.Put` describes. */
  lemma PutReplaced<V>(nodes: seq<Node<V>>, head: seq<Ptr>, live: seq<nat>, f: int, key: Key, value: V)
    requires WellLinked(nodes, head, live) && f == FloorIndex(KeysOf(nodes, live), key) && f >= 0
    requires nodes[live[f]].key == key
    ensures var nodes' := nodes[live[f] := nodes[live[f]].(value := value)];
            && WellLinked(nodes', head, live)
            && EntriesOf(nodes', live) == SortedEntries.Put(EntriesOf(nodes, live), key, value)
  {
    SetValueKeepsLinks(nodes, head, live, live[f], value);
    SortedDistinct(nodes, live);
    EntriesUpdate(nodes, live, f, value);
  }


  class NavigableHashImpl<V> {
    var head: seq<Ptr>
    var nodes: seq<Node<V>>
    var numberElements: int
    ghost var Live: seq<nat>

    /** The skip list is well linked over `Live`, and the count is its length. */
    ghost predicate Valid()
      reads this
    {
      WellLinked(nodes, head, Live) && numberElements == |Live|
    }

    /** The stored keys, ascending. */
    ghost function Keys(): seq<Key>
      reads this
      requires Valid()
    {
      KeysOf(nodes, Live)
    }

    /** The abstract map: the stored entries in ascending key order. */
    ghost function Entries(): (es: seq<Entry<V>>)
      reads this
      requires Valid()
      ensures Ordered(es) && KeysOfEntries(es) == Keys() && |es| == |Live|
    {
      EntriesOf(nodes, Live)
    }

    /** An empty map: every head slot null. */
    constructor()
      ensures Valid() && Entries() == [] && head == seq(Height, _ => None)
    {
      var slots: seq<Ptr> := [];
      var loop := 0;
      while loop < Height
        invariant 0 <= loop <= Height && slots == seq(loop, _ => None)
      {
        slots := slots + [None];
        loop := loop + 1;
      }
      head := slots;
      nodes := [];
      numberElements := 0;
      Live := [];
    }

    /** Empties the map: the count drops to 0 and every head slot becomes null. */
    method Clear()
      requires Valid()
      modifies this
      ensures Valid() && Entries() == [] && head == seq(Height, _ => None)
    {
      numberElements := 0;
      head := [];
      var loop := 0;
      while loop < Height
        invariant 0 <= loop <= Height && head == seq(loop, _ => None)
        invariant numberElements == 0 && nodes == old(nodes)
      {
        head := head + [None];
        loop := loop + 1;
      }
      Live := [];
      forall h | 0 <= h < Height
        ensures LevelLinked(nodes, head[h], h, Filter(nodes, Live, h))
      {
      }
    }

    /** The number of entries. */
    function Size(): (r: int)
      reads this
      requires Valid()
      ensures r == |Entries()|
    {
      numberElements
    }

    /** True exactly when the map holds no entry. */
    function IsEmpty(): (b: bool)
      reads this
      requires Valid()
      ensures b <==> Entries() == []
    {
      if Size() > 0 then false else true
    }

    /**
     * The level count of a new node: one more than the first null head slot
     * while there is one, else a nondeterministic pick in [1, Height - 1].
     */
    method NewNodeSize() returns (sz: nat)
      requires |head| == Height
      ensures 1 <= sz <= Height
      ensures forall l :: 0 <= l < sz - 1 ==> head[l].Some?
      ensures head[sz - 1].None? || (sz <= Height - 1 && forall l :: 0 <= l < Height ==> head[l].Some?)
    {
      var loop := 0;
      while loop < Height
        invariant 0 <= loop <= Height
        invariant forall l :: 0 <= l < loop ==> head[l].Some?
      {
        if head[loop].None? {
          return loop + 1;
        }
        loop := loop + 1;
      }
      sz :| 1 <= sz <= Height - 1;
    }

    /** The least entry: the first node of level 0, or none when empty. */
    function FirstEntry(): (r: Ptr)
      reads this
      requires Valid()
      ensures r == if Live == [] then None else Some(Live[0])
    {
      if numberElements < 1 then None else head[0]
    }

    /** The level-0 successor of a node; none for an empty map or an absent node. */
    function NextHigherNode(node: Ptr): (r: Ptr)
      reads this
      requires Valid() && (node.Some? ==> node.value < |nodes|)
      ensures numberElements < 1 || node.None? ==> r == None
      ensures forall p {:trigger Live[p]} :: 0 <= p < |Live| && node == Some(Live[p]) ==>
                r == if p + 1 < |Live| then Some(Live[p + 1]) else None
    {
      BaseLevel(nodes, head, Live);
      if numberElements < 1 then None
      else if node.None? then None
      else nodes[node.value].next[0]
    }

    /** The greatest entry whose key is at most `key`. */
    method FloorEntry(key: Key) returns (r: Ptr)
      requires Valid()
      ensures var f := FloorIndex(Keys(), key);
              r == if f < 0 then None else Some(Live[f])
    {
      WellLinkedNavigable(nodes, head, Live);
      r := FloorNode(nodes, head, Live, numberElements, key);
    }

    /** The greatest entry whose key is below `key`. */
    method LowerEntry(key: Key) returns (r: Ptr)
      requires Valid()
      ensures var l := LowerIndex(Keys(), key);
              r == if l < 0 then None else Some(Live[l])
    {
      WellLinkedNavigable(nodes, head, Live);
      r := LowerNode(nodes, head, Live, numberElements, key);
    }

    /** The entry whose key is `key`, if there is one. */
    method GetEntry(key: Key) returns (r: Ptr)
      requires Valid()
      ensures var f := FloorIndex(Keys(), key);
              r == if f >= 0 && Keys()[f] == key then Some(Live[f]) else None
    {
      WellLinkedNavigable(nodes, head, Live);
      r := FindNode(nodes, head, Live, numberElements, key);
    }

    /** The greatest entry. */
    method LastEntry() returns (r: Ptr)
      requires Valid()
      ensures r == if Live == [] then None else Some(Live[|Live| - 1])
    {
      WellLinkedNavigable(nodes, head, Live);
      r := LastNode(nodes, head, Live, numberElements);
    }

    /** The least entry whose key is at least `key`. */
    method CeilingEntry(key: Key) returns (r: Ptr)
      requires Valid()
      ensures var c := CeilingIndex(Keys(), key);
              r == if c < |Live| then Some(Live[c]) else None
    {
      if numberElements < 1 {
        return None;
      }
      var node := FloorEntry(key);
      ghost var f := FloorIndex(Keys(), key);
      CeilingFromFloor(Keys(), key);
      if node.None? {
        node := FirstEntry();
        return node;
      }
      assert node == Some(Live[f]) && Keys()[f] == nodes[node.value].key;
      if Compare(nodes[node.value].key, key) == 0 {
        return node;
      }
      assert 0 <= f < |Live| && node == Some(Live[f]);
      r := NextHigherNode(node);
      assert r == if f + 1 < |Live| then Some(Live[f + 1]) else None;
      assert CeilingIndex(Keys(), key) == f + 1;
    }

    /** The least entry whose key is above `key`. */
    method HigherEntry(key: Key) returns (r: Ptr)
      requires Valid()
      ensures var c := HigherIndex(Keys(), key);
              r == if c < |Live| then Some(Live[c]) else None
    {
      if numberElements < 1 {
        return None;
      }
      var node := FloorEntry(key);
      ghost var f := FloorIndex(Keys(), key);
      HigherFromFloor(Keys(), key);
      if node.None? {
        node := FirstEntry();
        assert HigherIndex(Keys(), key) == 0;
        return node;
      }
      assert node == Some(Live[f]);
      r := NextHigherNode(node);
      assert r == if f + 1 < |Live| then Some(Live[f + 1]) else None;
    }

    /** Splices `newNode` in after `a` on level `h`, ahead of `a`'s old successor `b`. */
    method SpliceIn(a: nat, newNode: nat, h: nat, b: Ptr)
      requires Tall(nodes, a, h) && Tall(nodes, newNode, h) && (b.Some? ==> Tall(nodes, b.value, h))
      modifies this`nodes
      ensures nodes == SpliceAfter(old(nodes), h, a, newNode, b)
    {
      nodes := SetNext(nodes, a, h, Some(newNode));
      nodes := SetLast(nodes, newNode, h, Some(a));
      if b.Some? {
        nodes := SetNext(nodes, newNode, h, b);
        nodes := SetLast(nodes, b.value, h, Some(newNode));
      }
    }

    /** Puts `newNode` in front of `first` on level `h`: forward to it, and it back to `newNode`. */
    method LinkBefore(newNode: nat, h: nat, first: Ptr)
      requires Tall(nodes, newNode, h) && (first.Some? ==> Tall(nodes, first.value, h))
      modifies this`nodes
      ensures nodes == SpliceFront(old(nodes), h, newNode, first)
    {
      nodes := SetNext(nodes, newNode, h, first);
      if first.Some? {
        nodes := SetLast(nodes, first.value, h, Some(newNode));
      }
    }

    /**
     * The walk of hookUpNodePointers on level `h`: back along level `h - 1`
     * from `lastNode0`, the last node before `newNode` there, to the first
     * node tall enough for level `h`, after which `newNode` is spliced in.
     * It returns that node, or none when level `h` has no node before `newNode`.
     */
    method WalkAndSplice(newNode: nat, lastNode0: Ptr, h: nat,
                         ghost shape: seq<Node<V>>, ghost Pre: seq<nat>, ghost Post: seq<nat>) returns (lastNode: Ptr)
      requires InsertionShape(shape, Pre, newNode, Post) && Inserting(nodes, head, shape, Pre, newNode, Post, h)
      requires h < |shape[newNode].next| && lastNode0 == LastOf(Filter(shape, Pre, h - 1))
      modifies this`nodes
      ensures lastNode == LastOf(Filter(shape, Pre, h))
      ensures lastNode.None? ==> nodes == old(nodes)
      ensures lastNode.Some? ==>
                && Inserting(nodes, head, shape, Pre, newNode, Post, h + 1)
                && head[h].Some? && head[h].value < |shape| && Less(shape[head[h].value].key, shape[newNode].key)
    {
      ghost var W := Filter(shape, Pre, h - 1);
      ghost var t: int := |W| - 1;
      lastNode := lastNode0;
      var done := false;
      while !done
        invariant -1 <= t < |W|
        invariant !done ==> nodes == old(nodes) && lastNode == (if t < 0 then None else Some(W[t]))
        invariant !done ==> ShortAfter(shape, W, t, h)
        invariant done ==> lastNode == LastOf(Filter(shape, Pre, h))
        invariant done && lastNode.None? ==> nodes == old(nodes)
        invariant done && lastNode.Some? ==>
                    && Inserting(nodes, head, shape, Pre, newNode, Post, h + 1)
                    && head[h].Some? && head[h].value < |shape| && Less(shape[head[h].value].key, shape[newNode].key)
        decreases !done, t + 1
      {
        if lastNode.None? {
          WalkExhausted(shape, Pre, h);
          done := true;
        } else {
          var x := lastNode.value;
          WalkNode(shape, Pre, newNode, Post, h, t);
          if |nodes[x].next| > h {
            SpliceLevel(nodes, head, shape, Pre, newNode, Post, h, t);
            SpliceIn(x, newNode, h, nodes[x].next[h]);
            done := true;
          } else {
            WalkStep(nodes, head, shape, Pre, newNode, Post, h, t);
            lastNode := nodes[x].last[|nodes[x].last| - 1];
            t := t - 1;
          }
        }
      }
    }

    /**
     * Links `newNode` into level `h`: after the walk, a level with no node
     * before it gets it as its head, either because the level is empty or
     * because the old head's key is greater.
     */
    method HookUpLevel(newNode: nat, lastNode0: Ptr, h: nat,
                       ghost shape: seq<Node<V>>, ghost Pre: seq<nat>, ghost Post: seq<nat>) returns (lastNode: Ptr)
      requires InsertionShape(shape, Pre, newNode, Post) && Inserting(nodes, head, shape, Pre, newNode, Post, h)
      requires h < |shape[newNode].next| && lastNode0 == LastOf(Filter(shape, Pre, h - 1))
      modifies this`nodes, this`head
      ensures Inserting(nodes, head, shape, Pre, newNode, Post, h + 1)
      ensures lastNode == LastOf(Filter(shape, Pre, h))
    {
      lastNode := WalkAndSplice(newNode, lastNode0, h, shape, Pre, Post);
      if lastNode.None? {
        FrontLevel(nodes, head, shape, Pre, newNode, Post, h);
        if head[h].Some? {
          CompareIsTotalOrder(shape[newNode].key, shape[head[h].value].key, shape[newNode].key);
        } else {
          SpliceFrontEmpty(nodes, h, newNode);
        }
      }
      if head[h].None? {
        head := head[h := Some(newNode)];
      } else if Compare(nodes[head[h].value].key, nodes[newNode].key) > 0 {
        var tmp := head[h];
        head := head[h := Some(newNode)];
        // Corrected: besides the forward slot of the new node, the displaced
        // head's backward slot is pointed at the new node.
        LinkBefore(newNode, h, tmp);
      }
    }

    /**
     * Links the new node `newNode`, appended to the arena `prior` with key
     * `key`, into every one of its levels after `immediatePreceedingNode`,
     * the stored node at position `f`.
     */
    method HookUpNodePointers(newNode: nat, immediatePreceedingNode: nat,
                              ghost prior: seq<Node<V>>, ghost live: seq<nat>, ghost f: nat,
                              ghost key: Key, ghost value: V, ghost height: nat)
      requires WellLinked(prior, head, live) && 1 <= height <= Height
      requires f < |live| && immediatePreceedingNode == live[f]
      requires Less(prior[live[f]].key, key) && (f + 1 < |live| ==> Less(key, prior[live[f + 1]].key))
      requires nodes == prior + [NewNode(key, value, height)] && newNode == |prior|
      modifies this`nodes, this`head
      ensures WellLinked(nodes, head, live[..f + 1] + [newNode] + live[f + 1..])
      ensures KeepsEntries(prior, nodes) && |prior| < |nodes| && nodes[newNode].key == key && nodes[newNode].value == value
    {
      ghost var shape := nodes;
      ghost var Pre, Post := live[..f + 1], live[f + 1..];
      assert live == Pre + Post;
      StartInsertion(prior, head, Pre, Post, key, value, height);
      assert Filter(shape, Pre, -1) == Pre by {
        assert forall i :: 0 <= i < |Pre| ==> (Pre + [newNode] + Post)[i] == Pre[i];
        FilterAll(shape, Pre, -1);
      }
      HookUpLevels(newNode, immediatePreceedingNode, shape, Pre, Post);
      InsertionDone(nodes, head, shape, Pre, newNode, Post);
      AppendKeeps(prior, NewNode(key, value, height), nodes);
    }

    /**
     * The level loop of hookUpNodePointers: starting from
     * `immediatePreceedingNode`, the last node of `Pre`, links `newNode`
     * into each of its levels in turn.
     */
    method HookUpLevels(newNode: nat, immediatePreceedingNode: nat,
                        ghost shape: seq<Node<V>>, ghost Pre: seq<nat>, ghost Post: seq<nat>)
      requires InsertionShape(shape, Pre, newNode, Post) && Inserting(nodes, head, shape, Pre, newNode, Post, 0)
      requires Some(immediatePreceedingNode) == LastOf(Filter(shape, Pre, -1))
      modifies this`nodes, this`head
      ensures Inserting(nodes, head, shape, Pre, newNode, Post, |shape[newNode].next|)
    {
      var lastNode: Ptr := Some(immediatePreceedingNode);
      var level := 0;
      while level < |nodes[newNode].next|
        invariant 0 <= level <= |shape[newNode].next|
        invariant Inserting(nodes, head, shape, Pre, newNode, Post, level)
        invariant lastNode == LastOf(Filter(shape, Pre, level - 1))
      {
        lastNode := HookUpLevel(newNode, lastNode, level, shape, Pre, Post);
        level := level + 1;
      }
    }

    /** Puts `newNode` in front of level `h` and makes it the level's head. */
    method LinkFrontLevel(newNode: nat, h: nat, ghost shape: seq<Node<V>>, ghost Post: seq<nat>)
      requires InsertionShape(shape, [], newNode, Post) && Inserting(nodes, head, shape, [], newNode, Post, h)
      requires h < |shape[newNode].next|
      modifies this`nodes, this`head
      ensures Inserting(nodes, head, shape, [], newNode, Post, h + 1)
    {
      var existingNode := head[h];
      FrontLevel(nodes, head, shape, [], newNode, Post, h);
      LinkBefore(newNode, h, existingNode);
      head := head[h := Some(newNode)];
    }

    /** Puts `newNode` in front of each of its levels in turn. */
    method LinkFrontLevels(newNode: nat, ghost shape: seq<Node<V>>, ghost Post: seq<nat>)
      requires InsertionShape(shape, [], newNode, Post) && Inserting(nodes, head, shape, [], newNode, Post, 0)
      modifies this`nodes, this`head
      ensures Inserting(nodes, head, shape, [], newNode, Post, |shape[newNode].next|)
    {
      var loop := 0;
      while loop < |nodes[newNode].next|
        invariant 0 <= loop <= |shape[newNode].next|
        invariant Inserting(nodes, head, shape, [], newNode, Post, loop)
      {
        LinkFrontLevel(newNode, loop, shape, Post);
        loop := loop + 1;
      }
    }

    /**
     * Put's linking of a new node whose key is below every stored key: on
     * each of its levels it goes in front of the level's first node and
     * takes the head slot.
     */
    method LinkAtFront(newNode: nat, ghost prior: seq<Node<V>>, ghost Post: seq<nat>,
                       ghost key: Key, ghost value: V, ghost height: nat)
      requires WellLinked(prior, head, Post) && 1 <= height <= Height
      requires Post != [] ==> Post[0] < |prior| && Less(key, prior[Post[0]].key)
      requires nodes == prior + [NewNode(key, value, height)] && newNode == |prior|
      modifies this`nodes, this`head
      ensures WellLinked(nodes, head, [newNode] + Post)
      ensures KeepsEntries(prior, nodes) && |prior| < |nodes| && nodes[newNode].key == key && nodes[newNode].value == value
    {
      ghost var shape := nodes;
      StartFrontInsertion(prior, head, Post, key, value, height);
      LinkFrontLevels(newNode, shape, Post);
      FrontInsertionDone(nodes, head, shape, newNode, Post);
      AppendKeeps(prior, NewNode(key, value, height), nodes);
    }

    /** Allocates a node for `key` and `value` with `height` levels and every pointer null, at the end of the arena. */
    method Allocate(key: Key, value: V, height: nat) returns (n: nat)
      modifies this`nodes
      ensures n == |old(nodes)| && nodes == old(nodes) + [NewNode(key, value, height)]
    {
      n := |nodes|;
      nodes := nodes + [NewNode(key, value, height)];
    }

    /**
     * Put's case for a key below every stored key: a node of policy-chosen
     * height goes in front of every level it occupies.
     */
    method InsertFirst(key: Key, value: V)
      requires Valid() && Live != [] && Less(key, nodes[Live[0]].key)
      modifies this
      ensures Valid() && Entries() == [Entry(key, value)] + old(Entries())
    {
      ghost var prior, live := nodes, Live;
      var sz := NewNodeSize();
      var n := Allocate(key, value, sz);
      LinkAtFront(n, prior, live, key, value, sz);
      numberElements := numberElements + 1;
      Live := [n] + live;
      EntriesFront(prior, nodes, live, n);
    }

    /**
     * Put's case for a new key whose floor is the stored node `lastNode`, at
     * position `f`: a node of policy-chosen height is hooked up right after it.
     */
    method InsertAfter(lastNode: nat, key: Key, value: V, ghost f: nat)
      requires Valid() && f < |Live| && Live[f] == lastNode
      requires Less(nodes[lastNode].key, key) && (f + 1 < |Live| ==> Less(key, nodes[Live[f + 1]].key))
      modifies this
      ensures Valid() && Entries() == old(Entries()[..f + 1]) + [Entry(key, value)] + old(Entries()[f + 1..])
    {
      ghost var prior, live := nodes, Live;
      numberElements := numberElements + 1;
      var sz := NewNodeSize();
      var n := Allocate(key, value, sz);
      HookUpNodePointers(n, lastNode, prior, live, f, key, value, sz);
      Live := live[..f + 1] + [n] + live[f + 1..];
      EntriesInsert(prior, nodes, live, f + 1, n);
    }

    /** Put's case for an empty map: a one-level node becomes the only stored node and the head of level 0. */
    method PutIntoEmpty(key: Key, value: V)
      requires Valid() && numberElements < 1
      modifies this
      ensures Valid() && old(Entries()) == [] && Entries() == [Entry(key, value)]
    {
      ghost var prior, oldHead := nodes, head;
      numberElements := 1;
      var n := Allocate(key, value, 1);
      head := head[0 := Some(n)];
      Live := [n];
      PutFirst(prior, oldHead, NewNode(key, value, 1));
    }

    /** Put's case for a stored key, at position `f`: the node `x` holding it takes the new value. */
    method ReplaceValue(x: nat, key: Key, value: V, ghost f: nat)
      requires Valid() && f == FloorIndex(Keys(), key) && Live[f] == x && Keys()[f] == key
      modifies this
      ensures Valid() && Entries() == SortedEntries.Put(old(Entries()), key, value)
    {
      PutReplaced(nodes, head, Live, f, key, value);
      nodes := nodes[x := nodes[x].(value := value)];
    }

    /**
     * Associates `value` with `key`: replaces the value of an existing key
     * and returns the old one, otherwise links in a new node and returns none.
     */
    method Put(key: Key, value: V) returns (previous: Option<V>)
      requires Valid()
      modifies this
      ensures Valid()
      ensures Entries() == SortedEntries.Put(old(Entries()), key, value)
      ensures previous == Lookup(old(Entries()), key)
    {
      ghost var es := Entries();
      ghost var f := FloorIndex(Keys(), key);
      LookupFloor(es, key);
      if numberElements < 1 {
        PutIntoEmpty(key, value);
        PutIntoNothing(es, key, value);
        return None;
      }
      var lastNode := FloorEntry(key);
      if lastNode.None? {
        assert Keys()[0] == nodes[Live[0]].key;
        InsertFirst(key, value);
        assert es[..0] + [Entry(key, value)] + es[0..] == [Entry(key, value)] + es;
        return None;
      }
      if Compare(key, nodes[lastNode.value].key) == 0 {
        previous := Some(nodes[lastNode.value].value);
        ReplaceValue(lastNode.value, key, value, f);
      } else {
        FloorNeighbours(nodes, Live, f, key);
        InsertAfter(lastNode.value, key, value, f);
        previous := None;
      }
    }

    /** Joins `ln` and `nn`, the neighbours of a removed node on level `h`. */
    method JoinNeighbours(ln: Ptr, nn: Ptr, h: nat)
      requires (ln.Some? ==> Tall(nodes, ln.value, h)) && (nn.Some? ==> Tall(nodes, nn.value, h))
      modifies this`nodes
      ensures nodes == Bypass(old(nodes), h, ln, nn)
    {
      if ln.Some? {
        nodes := SetNext(nodes, ln.value, h, nn);
      }
      if nn.Some? {
        nodes := SetLast(nodes, nn.value, h, ln);
      }
    }

    /** Unlinks the node `node`, at position `p` of `live`, from level `h`, joining its neighbours there. */
    method UnlinkLevel(node: nat, h: nat, ghost shape: seq<Node<V>>, ghost live: seq<nat>, ghost p: nat)
      requires WellFormedArena(shape) && Sorted(shape, live)
      requires Removing(nodes, head, shape, live, p, h) && node == live[p] && h < |shape[node].next|
      modifies this`nodes, this`head
      ensures Removing(nodes, head, shape, live, p, h + 1)
    {
      RemovalStep(nodes, head, shape, live, p, h);
      var ln := nodes[node].last[h];
      var nn := nodes[node].next[h];
      JoinNeighbours(ln, nn, h);
      if head[h] == Some(node) {
        head := head[h := nn];
      }
    }

    /** Unlinks the stored node `node`, at position `p`, from every level it occupies. */
    method RemoveElement(node: nat, ghost p: nat)
      requires Valid() && p < |Live| && Live[p] == node
      modifies this
      ensures Valid() && Live == old(Live[..p] + Live[p + 1..]) && SameShape(old(nodes), nodes)
    {
      ghost var shape, live := nodes, Live;
      var size := |nodes[node].next|;
      var loop := 0;
      while loop < size
        modifies this`nodes, this`head
        invariant 0 <= loop <= size && size == |shape[node].next|
        invariant Removing(nodes, head, shape, live, p, loop)
      {
        UnlinkLevel(node, loop, shape, live, p);
        loop := loop + 1;
      }
      RemovalDone(nodes, head, shape, live, p);
      numberElements := numberElements - 1;
      Live := live[..p] + live[p + 1..];
    }

    /** Removes the entry for `key`, returning its value; none, and no change, when the key is absent. */
    method Remove(key: Key) returns (r: Option<V>)
      requires Valid()
      modifies this
      ensures Valid()
      ensures Entries() == Delete(old(Entries()), key)
      ensures r == Lookup(old(Entries()), key)
    {
      ghost var es := Entries();
      LookupFloor(es, key);
      var tmp := GetEntry(key);
      if tmp.None? {
        return None;
      }
      ghost var p := FloorIndex(Keys(), key);
      ghost var oldNodes := nodes;
      RemoveElement(tmp.value, p);
      EntriesRemove(oldNodes, nodes, old(Live), p);
      r := Some(nodes[tmp.value].value);
    }
  }
}
