/**
 * `put`, `hookUpNodePointers`, `remove` and `floorEntry` of
 * src/NavigableHash.ts exactly as written, as functions on a value of the
 * whole skip list, to exhibit the defect of `hookUpNodePointers`: when the
 * new node displaces the head of a level, the displaced node's backward slot
 * on that level is left null. A later removal of that node unlinks it through
 * its backward slots and so misses the forward pointer to it, and a floor
 * query can then walk onto the removed node.
 *
 * Reads and writes through indices that do not exist (which the source never
 * performs) read null and change nothing; the walks that loop in the source
 * take a fuel bound.
 */
module HookUpAsWritten {
  import opened Wrappers
  import opened Keys
  import opened SkipLevels

  /** The whole skip list: arena, head slots and count. */
  datatype Skip = Skip(nodes: seq<Node<int>>, head: seq<Ptr>, numberElements: int)

  /**
   * `r` differs from `s` in forward, backward and head slots only: the same
   * arena, with every node keeping its key, value and height.
   */
  ghost predicate Rewired(s: Skip, r: Skip)
  {
    && |r.nodes| == |s.nodes| && |r.head| == |s.head|
    && forall x :: 0 <= x < |s.nodes| ==>
         && r.nodes[x].key == s.nodes[x].key && r.nodes[x].value == s.nodes[x].value
         && |r.nodes[x].next| == |s.nodes[x].next| && |r.nodes[x].last| == |s.nodes[x].last|
  }

  /** A new map: every head slot null. */
  function Empty(): Skip
  {
    Skip([], [None, None, None], 0)
  }

  function NodeKey(s: Skip, x: nat): Key
  {
    if x < |s.nodes| then s.nodes[x].key else Undefined
  }

  function Levels(s: Skip, x: nat): nat
  {
    if x < |s.nodes| then |s.nodes[x].next| else 0
  }

  function NextAt(s: Skip, x: nat, h: int): Ptr
  {
    if x < |s.nodes| && 0 <= h < |s.nodes[x].next| then s.nodes[x].next[h] else None
  }

  function LastAt(s: Skip, x: nat, h: int): Ptr
  {
    if x < |s.nodes| && 0 <= h < |s.nodes[x].last| then s.nodes[x].last[h] else None
  }

  function BackLevels(s: Skip, x: nat): nat
  {
    if x < |s.nodes| then |s.nodes[x].last| else 0
  }

  function HeadAt(s: Skip, h: int): Ptr
  {
    if 0 <= h < |s.head| then s.head[h] else None
  }

  function WithNext(s: Skip, x: nat, h: nat, p: Ptr): (r: Skip)
    ensures Rewired(s, r) && r.head == s.head && r.numberElements == s.numberElements
    ensures forall y: nat, g: int :: LastAt(r, y, g) == LastAt(s, y, g)
  {
    if Tall(s.nodes, x, h) then s.(nodes := SetNext(s.nodes, x, h, p)) else s
  }

  function WithLast(s: Skip, x: nat, h: nat, p: Ptr): (r: Skip)
    ensures Rewired(s, r) && r.head == s.head && r.numberElements == s.numberElements
  {
    if Tall(s.nodes, x, h) then s.(nodes := SetLast(s.nodes, x, h, p)) else s
  }

  function WithValue(s: Skip, x: nat, v: int): Skip
  {
    if x < |s.nodes| then s.(nodes := s.nodes[x := s.nodes[x].(value := v)]) else s
  }

  function WithHead(s: Skip, h: nat, p: Ptr): (r: Skip)
    ensures r.nodes == s.nodes && |r.head| == |s.head| && r.numberElements == s.numberElements
    ensures h < |s.head| ==> r.head[h] == p
    ensures forall g :: 0 <= g < |s.head| && g != h ==> r.head[g] == s.head[g]
  {
    if h < |s.head| then s.(head := s.head[h := p]) else s
  }

  /** newNodeSize: one more than the first null head slot; `pick` stands for the random level. */
  function NewNodeSize(s: Skip, loop: nat, pick: nat): (r: nat)
    ensures (forall l :: loop <= l < Height ==> HeadAt(s, l).Some?) ==> r == pick
    ensures (exists l :: loop <= l < Height && HeadAt(s, l).None?) ==>
              && loop < r <= Height && HeadAt(s, r - 1).None?
              && forall l :: loop <= l < r - 1 ==> HeadAt(s, l).Some?
    decreases Height - loop
  {
    if loop >= Height then pick
    else if HeadAt(s, loop).None? then loop + 1
    else NewNodeSize(s, loop + 1, pick)
  }

  /** The outcome of scanning a row of pointers against a key. */
  datatype Scan = Match(x: nat) | Below(x: nat) | Neither

  /** The head scan of getEntry and floorEntry, from the top slot down. */
  function HeadScan(s: Skip, key: Key, loop: nat): (r: Scan)
    ensures r.Match? ==> NodeKey(s, r.x) == key
    ensures r.Below? ==> Less(NodeKey(s, r.x), key)
    decreases Height - loop
  {
    if loop >= Height then Neither
    else
      var tmp := HeadAt(s, Height - 1 - loop);
      if tmp.Some? && Compare(NodeKey(s, tmp.value), key) == 0 then Match(tmp.value)
      else if tmp.Some? && Compare(NodeKey(s, tmp.value), key) == -1 then Below(tmp.value)
      else HeadScan(s, key, loop + 1)
  }

  /** floorEntry's inner loop: the forward slots of `node`, from the top down. */
  function FloorSlots(s: Skip, key: Key, node: nat, loop: nat): (r: Scan)
    ensures r.Match? ==> NodeKey(s, r.x) == key
    ensures r.Below? ==> Less(NodeKey(s, r.x), key)
    decreases Levels(s, node) - loop
  {
    if loop >= Levels(s, node) then Neither
    else
      var test := NextAt(s, node, Levels(s, node) - loop - 1);
      if test.Some? && Compare(key, NodeKey(s, test.value)) == 0 then Match(test.value)
      else if test.Some? && Compare(key, NodeKey(s, test.value)) == 1 then
        CompareIsTotalOrder(key, NodeKey(s, test.value), key);
        Below(test.value)
      else FloorSlots(s, key, node, loop + 1)
  }

  /** floorEntry's forward walk from `node`. */
  function FloorWalk(s: Skip, key: Key, node: nat, fuel: nat): (r: Ptr)
    ensures r.Some? && r != Some(node) ==> Compare(NodeKey(s, r.value), key) <= 0
    decreases fuel
  {
    if fuel == 0 then None
    else
      match FloorSlots(s, key, node, 0)
      case Match(t) => Some(t)
      case Neither => Some(node)
      case Below(t) => FloorWalk(s, key, t, fuel - 1)
  }

  /** floorEntry as written. */
  function FloorEntry(s: Skip, key: Key, fuel: nat): (r: Ptr)
    ensures r.Some? ==> Compare(NodeKey(s, r.value), key) <= 0
    ensures s.numberElements < 1 ==> r.None?
  {
    if s.numberElements < 1 then None
    else
      match HeadScan(s, key, 0)
      case Match(t) => Some(t)
      case Neither => None
      case Below(t) => FloorWalk(s, key, t, fuel)
  }

  /** getEntry's inner loop: the first forward slot of `node`, from the top down, at or below `key`. */
  function EntrySlots(s: Skip, key: Key, node: nat, height: nat): (r: Scan)
    ensures r.Match? ==> NodeKey(s, r.x) == key
    ensures r.Below? ==> Less(NodeKey(s, r.x), key)
    decreases Levels(s, node) - height
  {
    if height >= Levels(s, node) then Neither
    else
      var nn := NextAt(s, node, Levels(s, node) - height - 1);
      if nn.Some? && Compare(NodeKey(s, nn.value), key) == 0 then Match(nn.value)
      else if nn.Some? && Compare(NodeKey(s, nn.value), key) == -1 then Below(nn.value)
      else EntrySlots(s, key, node, height + 1)
  }

  /** getEntry's forward walk from `node`. */
  function EntryWalk(s: Skip, key: Key, node: nat, fuel: nat): (r: Ptr)
    ensures r.Some? ==> NodeKey(s, r.value) == key
    decreases fuel
  {
    if fuel == 0 then None
    else
      var tmp := NextAt(s, node, 0);
      if tmp.None? then None
      else if Compare(NodeKey(s, tmp.value), key) == 0 then tmp
      else if Compare(NodeKey(s, tmp.value), key) == 1 then None
      else
        match EntrySlots(s, key, node, 0)
        case Match(t) => Some(t)
        case Below(t) => EntryWalk(s, key, t, fuel - 1)
        case Neither => EntryWalk(s, key, node, fuel - 1)
  }

  /** getEntry as written. */
  function GetEntry(s: Skip, key: Key, fuel: nat): (r: Ptr)
    ensures r.Some? ==> NodeKey(s, r.value) == key
    ensures s.numberElements < 1 ==> r.None?
  {
    if s.numberElements < 1 then None
    else
      match HeadScan(s, key, 0)
      case Match(t) => Some(t)
      case Neither => None
      case Below(t) => EntryWalk(s, key, t, fuel)
  }

  /** hookUpNodePointers' walk on level `h`: back to a node tall enough, then the splice after it. */
  function WalkLevel(s: Skip, newNode: nat, lastNode: Ptr, h: nat, fuel: nat): (r: (Skip, Ptr))
    ensures Rewired(s, r.0) && r.0.head == s.head && r.0.numberElements == s.numberElements
    decreases fuel
  {
    if fuel == 0 || lastNode.None? then (s, lastNode)
    else
      var x := lastNode.value;
      if Levels(s, x) > h then
        var nextNode := NextAt(s, x, h);
        var s1 := WithLast(WithNext(s, x, h, Some(newNode)), newNode, h, Some(x));
        if nextNode.Some? then (WithLast(WithNext(s1, newNode, h, nextNode), nextNode.value, h, Some(newNode)), lastNode)
        else (s1, lastNode)
      else WalkLevel(s, newNode, LastAt(s, x, BackLevels(s, x) - 1), h, fuel - 1)
  }

  /**
   * hookUpNodePointers' head update on level `h`, as written: a displaced head
   * becomes the new node's successor, but its own backward slot is not set.
   */
  function HeadLevel(s: Skip, newNode: nat, h: nat): (r: Skip)
    ensures Rewired(s, r) && r.numberElements == s.numberElements
    ensures forall y: nat, g: int :: LastAt(r, y, g) == LastAt(s, y, g)
    ensures h < |s.head| ==>
              HeadAt(r, h) == if HeadAt(s, h).Some? && !Less(NodeKey(s, newNode), NodeKey(s, HeadAt(s, h).value))
                              then HeadAt(s, h) else Some(newNode)
  {
    var hd := HeadAt(s, h);
    if hd.None? then WithHead(s, h, Some(newNode))
    else if Compare(NodeKey(s, hd.value), NodeKey(s, newNode)) > 0 then
      WithNext(WithHead(s, h, Some(newNode)), newNode, h, hd)
    else s
  }

  /** hookUpNodePointers as written, from level `height` up to `nodeHeight`. */
  function HookUp(s: Skip, newNode: nat, lastNode: Ptr, height: nat, nodeHeight: nat, fuel: nat): (r: Skip)
    ensures Rewired(s, r) && r.numberElements == s.numberElements
    decreases nodeHeight - height
  {
    if height >= nodeHeight then s
    else
      var (s1, lastNode') := WalkLevel(s, newNode, lastNode, height, fuel);
      HookUp(HeadLevel(s1, newNode, height), newNode, lastNode', height + 1, nodeHeight, fuel)
  }

  /** put's linking of a new least node: in front of every level it occupies, taking the head slot. */
  function LinkFront(s: Skip, newNode: nat, loop: nat, size: nat): (r: Skip)
    ensures Rewired(s, r) && r.numberElements == s.numberElements
    ensures forall h :: loop <= h < size && h < |s.head| ==> r.head[h] == Some(newNode)
    ensures forall h :: 0 <= h < |s.head| && !(loop <= h < size) ==> r.head[h] == s.head[h]
    decreases size - loop
  {
    if loop >= size then s
    else
      var existingNode := HeadAt(s, loop);
      var s1 := WithNext(s, newNode, loop, existingNode);
      var s2 := if existingNode.Some? then WithLast(s1, existingNode.value, loop, Some(newNode)) else s1;
      LinkFront(WithHead(s2, loop, Some(newNode)), newNode, loop + 1, size)
  }

  /** put as written; `pick` is the random level newNodeSize falls back on once every head slot is taken. */
  function Put(s: Skip, key: Key, value: int, pick: nat, fuel: nat): (r: Skip)
    ensures |r.head| == |s.head| && |s.nodes| <= |r.nodes|
    ensures forall x :: 0 <= x < |s.nodes| ==> NodeKey(r, x) == NodeKey(s, x)
    ensures s.numberElements < 1 ==>
              && r.numberElements == 1 && |r.nodes| == |s.nodes| + 1 && NodeKey(r, |s.nodes|) == key
              && (0 < |s.head| ==> r.head[0] == Some(|s.nodes|))
    ensures var f := FloorEntry(s, key, fuel);
            1 <= s.numberElements && f.Some? && NodeKey(s, f.value) == key && f.value < |s.nodes| ==>
              r.numberElements == s.numberElements && |r.nodes| == |s.nodes| && r.nodes[f.value].value == value
    ensures var f := FloorEntry(s, key, fuel);
            1 <= s.numberElements && !(f.Some? && NodeKey(s, f.value) == key) ==>
              r.numberElements == s.numberElements + 1 && |r.nodes| == |s.nodes| + 1 && NodeKey(r, |s.nodes|) == key
  {
    var n := |s.nodes|;
    if s.numberElements < 1 then
      WithHead(Skip(s.nodes + [NewNode(key, value, 1)], s.head, 1), 0, Some(n))
    else
      var lastNode := FloorEntry(s, key, fuel);
      if lastNode.None? then
        var size := NewNodeSize(s, 0, pick);
        var s1 := Skip(s.nodes + [NewNode(key, value, size)], s.head, s.numberElements);
        var s2 := LinkFront(s1, n, 0, size);
        s2.(numberElements := s2.numberElements + 1)
      else if Compare(key, NodeKey(s, lastNode.value)) == 0 then
        WithValue(s, lastNode.value, value)
      else
        var size := NewNodeSize(s, 0, pick);
        var s1 := Skip(s.nodes + [NewNode(key, value, size)], s.head, s.numberElements + 1);
        HookUp(s1, n, lastNode, 0, size, fuel)
  }

  /** removeElement's loop as written: on each level of `node`, join its neighbours and move a head off it. */
  function Unlink(s: Skip, node: nat, loop: nat, size: nat): (r: Skip)
    ensures Rewired(s, r) && r.numberElements == s.numberElements
    decreases size - loop
  {
    if loop >= size then s
    else
      var ln := LastAt(s, node, loop);
      var nn := NextAt(s, node, loop);
      var s1 := if ln.Some? then WithNext(s, ln.value, loop, nn) else s;
      var s2 := if nn.Some? then WithLast(s1, nn.value, loop, ln) else s1;
      var s3 := if HeadAt(s2, loop) == Some(node) then WithHead(s2, loop, nn) else s2;
      Unlink(s3, node, loop + 1, size)
  }

  /** remove as written: getEntry, then removeElement. */
  function Remove(s: Skip, key: Key, fuel: nat): (r: Skip)
    ensures GetEntry(s, key, fuel).None? ==> r == s
    ensures GetEntry(s, key, fuel).Some? ==> Rewired(s, r) && r.numberElements == s.numberElements - 1
  {
    var tmp := GetEntry(s, key, fuel);
    if tmp.None? then s
    else
      var s1 := Unlink(s, tmp.value, 0, Levels(s, tmp.value));
      s1.(numberElements := s1.numberElements - 1)
  }

  /** Fresh nodes of one, two and three levels, written out. */
  lemma Fresh(k: Key, v: int)
    ensures NewNode(k, v, 1) == Node(k, v, [None], [None])
    ensures NewNode(k, v, 2) == Node(k, v, [None, None], [None, None])
    ensures NewNode(k, v, 3) == Node(k, v, [None, None, None], [None, None, None])
  {
    assert NewNode(k, v, 1).next == [None];
    assert NewNode(k, v, 2).next == [None, None];
    assert NewNode(k, v, 3).next == [None, None, None];
  }

  // ----- The counterexample, one operation at a time -----

  const N: Ptr := None
  const K50: Key := Present(50)
  const K55: Key := Present(55)
  const K60: Key := Present(60)

  /** After put 50: one one-level node, the head of level 0. */
  function S1(): Skip
  {
    Skip([Node(K50, 0, [N], [N])], [Some(0), N, N], 1)
  }

  /** After put 60: a two-level node after 50, and the head of level 1. */
  function S2(): Skip
  {
    Skip([Node(K50, 0, [Some(1)], [N]),
          Node(K60, 0, [N, N], [Some(0), N])], [Some(0), Some(1), N], 2)
  }

  /** After put 55: a three-level node between 50 and 60 that displaced 60 as the head of level 1; 60's `last[1]` stays null. */
  function S3(): Skip
  {
    Skip([Node(K50, 0, [Some(2)], [N]),
          Node(K60, 0, [N, N], [Some(2), N]),
          Node(K55, 0, [Some(1), Some(1), N], [Some(0), N, N])], [Some(0), Some(2), Some(2)], 3)
  }

  /** After remove 60: level 0 skips 60, but 55's `next[1]` still points at it. */
  function S4(): Skip
  {
    Skip([Node(K50, 0, [Some(2)], [N]),
          Node(K60, 0, [N, N], [Some(2), N]),
          Node(K55, 0, [N, Some(1), N], [Some(0), N, N])], [Some(0), Some(2), Some(2)], 2)
  }

  lemma PutFifty()
    ensures Put(Empty(), K50, 0, 1, 10) == S1()
  {
    Fresh(K50, 0);
  }

  /** The arena of `S1()` with the fresh two-level node for 60, before it is hooked up. */
  function T2(): Skip
  {
    Skip(S1().nodes + [NewNode(K60, 0, 2)], S1().head, 2)
  }

  /** hookUpNodePointers for 60: spliced after 50 on level 0, taking the empty head slot of level 1. */
  lemma HookUpSixty()
    ensures HookUp(T2(), 1, Some(0), 0, 2, 10) == S2()
  {
    var t := T2();
    Fresh(K60, 0);
    var u := WithLast(WithNext(t, 0, 0, Some(1)), 1, 0, Some(0));
    assert WalkLevel(t, 1, Some(0), 0, 10) == (u, Some(0));
    assert HeadLevel(u, 1, 0) == u;
    assert WalkLevel(u, 1, Some(0), 1, 10) == (u, N);
    assert HookUp(t, 1, Some(0), 0, 2, 10) == HookUp(u, 1, Some(0), 1, 2, 10);
    assert HookUp(u, 1, Some(0), 1, 2, 10) == WithHead(u, 1, Some(1));
    assert t.nodes == [Node(K50, 0, [N], [N]), Node(K60, 0, [N, N], [N, N])];
    assert u.nodes[0].next == [Some(1)];
    assert u.nodes[1].last == [Some(0), N];
    assert u.nodes == S2().nodes;
  }

  lemma PutSixty()
    ensures Put(S1(), K60, 0, 1, 10) == S2()
  {
    var s := S1();
    assert HeadScan(s, K60, 2) == Below(0);
    assert HeadScan(s, K60, 0) == Below(0);
    assert FloorSlots(s, K60, 0, 0) == Neither;
    assert FloorEntry(s, K60, 10) == Some(0);
    assert NewNodeSize(s, 0, 1) == 2;
    assert Put(s, K60, 0, 1, 10) == HookUp(T2(), 1, Some(0), 0, 2, 10);
    HookUpSixty();
  }

  /** The arena of `S2()` with the fresh three-level node for 55, before it is hooked up. */
  function T3(): Skip
  {
    Skip(S2().nodes + [NewNode(K55, 0, 3)], S2().head, 3)
  }

  /** 55 after level 0 is hooked up: spliced between 50 and 60. */
  function U3(): Skip
  {
    Skip([Node(K50, 0, [Some(2)], [N]),
          Node(K60, 0, [N, N], [Some(2), N]),
          Node(K55, 0, [Some(1), N, N], [Some(0), N, N])], [Some(0), Some(1), N], 3)
  }

  /** Level 0 of hookUpNodePointers for 55: the walk stops at 50 and splices 55 in after it. */
  lemma HookUpFiftyFiveLevelZero()
    ensures HookUp(T3(), 2, Some(0), 0, 3, 10) == HookUp(U3(), 2, Some(0), 1, 3, 10)
  {
    var t := T3();
    Fresh(K55, 0);
    var t1 := WithLast(WithNext(t, 0, 0, Some(2)), 2, 0, Some(0));
    var u := WithLast(WithNext(t1, 2, 0, Some(1)), 1, 0, Some(2));
    assert WalkLevel(t, 2, Some(0), 0, 10) == (u, Some(0));
    assert t.nodes == S2().nodes + [Node(K55, 0, [N, N, N], [N, N, N])];
    assert t1.nodes[0].next == [Some(2)];
    assert t1.nodes[2].last == [Some(0), N, N];
    assert u.nodes[2].next == [Some(1), N, N];
    assert u.nodes[1].last == [Some(2), N];
    assert u.nodes == U3().nodes;
    assert u == U3();
    assert HeadLevel(U3(), 2, 0) == U3();
  }

  /**
   * Levels 1 and 2 of hookUpNodePointers for 55: 50 is too short, so the walk
   * ends; 55 displaces 60 as head of level 1, and 60's backward slot there
   * stays null.
   */
  lemma HookUpFiftyFiveUpper()
    ensures HookUp(U3(), 2, Some(0), 1, 3, 10) == S3()
  {
    var u := U3();
    assert WalkLevel(u, 2, Some(0), 1, 10) == (u, N);
    var v := WithNext(WithHead(u, 1, Some(2)), 2, 1, Some(1));
    assert HeadLevel(u, 2, 1) == v;
    assert v.nodes[2].next == [Some(1), Some(1), N];
    assert WalkLevel(v, 2, N, 2, 10) == (v, N);
    var w := WithHead(v, 2, Some(2));
    assert HeadLevel(v, 2, 2) == w;
    assert HookUp(v, 2, N, 2, 3, 10) == w;
    assert w.nodes == S3().nodes;
  }

  /** hookUpNodePointers for 55, all three levels. */
  lemma HookUpFiftyFive()
    ensures HookUp(T3(), 2, Some(0), 0, 3, 10) == S3()
  {
    HookUpFiftyFiveLevelZero();
    HookUpFiftyFiveUpper();
  }

  lemma PutFiftyFive()
    ensures Put(S2(), K55, 0, 1, 10) == S3()
  {
    var s := S2();
    assert HeadScan(s, K55, 2) == Below(0);
    assert HeadScan(s, K55, 0) == Below(0);
    assert FloorSlots(s, K55, 0, 1) == Neither;
    assert FloorSlots(s, K55, 0, 0) == Neither;
    assert FloorEntry(s, K55, 10) == Some(0);
    assert NewNodeSize(s, 0, 1) == 3;
    assert Put(s, K55, 0, 1, 10) == HookUp(T3(), 2, Some(0), 0, 3, 10);
    HookUpFiftyFive();
  }

  lemma RemoveSixty()
    ensures GetEntry(S3(), K60, 10) == Some(1)
    ensures Remove(S3(), K60, 10) == S4()
  {
    var s := S3();
    assert HeadScan(s, K60, 0) == Below(2);
    assert EntryWalk(s, K60, 2, 10) == Some(1);
    var s1 := WithNext(s, 2, 0, N);
    assert Unlink(s, 1, 0, 2) == Unlink(s1, 1, 1, 2);
    assert Unlink(s1, 1, 1, 2) == s1;
    assert s1.nodes[2].next == [N, Some(1), N];
    assert s1.nodes == S4().nodes;
  }

  lemma QueriesAfterRemove()
    ensures GetEntry(S4(), K60, 10) == None
    ensures FloorEntry(S4(), Present(100), 10) == Some(1)
  {
    var s := S4();
    assert HeadScan(s, K60, 0) == Below(2);
    assert EntryWalk(s, K60, 2, 10) == None;
    assert HeadScan(s, Present(100), 0) == Below(2);
    assert FloorSlots(s, Present(100), 2, 0) == Below(1);
    assert FloorSlots(s, Present(100), 1, 0) == Neither;
    assert FloorWalk(s, Present(100), 1, 9) == Some(1);
  }

  /**
   * put 50, 60, 55, then remove 60: node 55 displaced 60 as the head of
   * level 1 without becoming 60's backward neighbour there, so removing 60
   * leaves 55's forward slot on level 1 pointing at it. getEntry no longer
   * finds 60, yet floorEntry(100) walks onto the removed node and answers 60.
   */
  lemma RemovedNodeFound()
    ensures var s := Remove(Put(Put(Put(Empty(), K50, 0, 1, 10), K60, 0, 1, 10), K55, 0, 1, 10), K60, 10);
            && s.numberElements == 2
            && GetEntry(s, K60, 10) == None
            && FloorEntry(s, Present(100), 10) == Some(1) && NodeKey(s, 1) == K60
  {
    PutFifty();
    PutSixty();
    PutFiftyFive();
    RemoveSixty();
    QueriesAfterRemove();
  }
}
