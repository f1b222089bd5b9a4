/**
 * The doubly linked list of src/LinkedList.ts: list, queue and deque operations
 * by rewiring `previousNode`/`nextNode` pointers. The ghost `Nodes` is the chain
 * from `firstNode` to `lastNode`; `Contents` the payloads in that order.
 * Element equality (the list's Collectable) is Dafny equality.
 */
module LinkedLists {
  import opened Wrappers
  import Sequences

  class LinkedListNode<T> {
    var previousNode: LinkedListNode?<T>
    var nextNode: LinkedListNode?<T>
    var payload: T

    constructor (t: T)
      ensures payload == t && previousNode == null && nextNode == null
    {
      payload := t;
      previousNode := null;
      nextNode := null;
    }
  }

  /** Each node's `nextNode` is its successor in `N`, and each `previousNode` its predecessor. */
  ghost predicate Linked<T>(N: seq<LinkedListNode<T>>)
    reads set i | 0 <= i < |N| :: N[i]
  {
    && (forall i {:trigger N[i].nextNode} :: 0 <= i < |N| - 1 ==> N[i].nextNode == N[i + 1])
    && (forall i {:trigger N[i].previousNode} :: 0 < i < |N| ==> N[i].previousNode == N[i - 1])
  }

  /**
   * The nodes `N`, holding `C` and linked both ways except across the cut
   * before position `k`, with a new node `n` holding `t` linked in at the cut:
   * the chain now runs through `n` and holds `t` at position `k`.
   */
  lemma SpliceInChain<T>(N: seq<LinkedListNode<T>>, C: seq<T>, R: set<object>, k: nat, n: LinkedListNode<T>, t: T)
    requires 0 < k < |N| == |C| && n !in N && n.payload == t
    requires forall i :: 0 <= i < |N| ==> N[i] in R && N[i].payload == C[i]
    requires Sequences.Distinct(N)
    requires forall i {:trigger N[i].nextNode} :: 0 <= i < |N| - 1 && i != k - 1 ==> N[i].nextNode == N[i + 1]
    requires forall i {:trigger N[i].previousNode} :: 0 < i < |N| && i != k ==> N[i].previousNode == N[i - 1]
    requires N[k - 1].nextNode == n && n.nextNode == N[k] && N[k].previousNode == n && n.previousNode == N[k - 1]
    requires N[0].previousNode == null && N[|N| - 1].nextNode == null
    ensures var M, D := N[..k] + [n] + N[k..], C[..k] + [t] + C[k..];
            && |M| == |D| == |N| + 1 && M[0] == N[0] && M[|M| - 1] == N[|N| - 1]
            && M[0].previousNode == null && M[|M| - 1].nextNode == null
            && (forall i :: 0 <= i < |M| ==> M[i] in R + {n})
            && Sequences.Distinct(M)
            && (forall i :: 0 <= i < |M| ==> M[i].payload == D[i])
            && Linked(M)
  {
    Sequences.DistinctInsert(N, k, n);
    var M, D := N[..k] + [n] + N[k..], C[..k] + [t] + C[k..];
    forall i {:trigger M[i]} | 0 <= i < |M|
      ensures M[i] == (if i < k then N[i] else if i == k then n else N[i - 1])
      ensures D[i] == (if i < k then C[i] else if i == k then t else C[i - 1])
    {
    }
  }

  /** The chain `N` holding `C`, with a new last node `n` holding `t` linked on after it. */
  lemma AppendToChain<T>(N: seq<LinkedListNode<T>>, C: seq<T>, R: set<object>, n: LinkedListNode<T>, t: T)
    requires 0 < |N| == |C| && n !in N && n.payload == t
    requires forall i :: 0 <= i < |N| ==> N[i] in R && N[i].payload == C[i]
    requires Sequences.Distinct(N)
    requires forall i {:trigger N[i].nextNode} :: 0 <= i < |N| - 1 ==> N[i].nextNode == N[i + 1]
    requires forall i {:trigger N[i].previousNode} :: 0 < i < |N| ==> N[i].previousNode == N[i - 1]
    requires N[|N| - 1].nextNode == n && n.previousNode == N[|N| - 1] && n.nextNode == null
    ensures var M, D := N + [n], C + [t];
            && |M| == |D| && M[0] == N[0] && M[|M| - 1] == n
            && (forall i :: 0 <= i < |M| ==> M[i] in R + {n})
            && Sequences.Distinct(M)
            && (forall i :: 0 <= i < |M| ==> M[i].payload == D[i])
            && Linked(M)
  {
    Sequences.DistinctAppend(N, n);
  }

  /** The chain `N` holding `C`, with a new first node `n` holding `t` linked on before it. */
  lemma PrependToChain<T>(N: seq<LinkedListNode<T>>, C: seq<T>, R: set<object>, n: LinkedListNode<T>, t: T)
    requires 0 < |N| == |C| && n !in N && n.payload == t
    requires forall i :: 0 <= i < |N| ==> N[i] in R && N[i].payload == C[i]
    requires Sequences.Distinct(N)
    requires forall i {:trigger N[i].nextNode} :: 0 <= i < |N| - 1 ==> N[i].nextNode == N[i + 1]
    requires forall i {:trigger N[i].previousNode} :: 0 < i < |N| ==> N[i].previousNode == N[i - 1]
    requires N[0].previousNode == n && n.nextNode == N[0] && n.previousNode == null
    ensures var M, D := [n] + N, [t] + C;
            && |M| == |D| && M[0] == n && M[|M| - 1] == N[|N| - 1]
            && (forall i :: 0 <= i < |M| ==> M[i] in R + {n})
            && Sequences.Distinct(M)
            && (forall i :: 0 <= i < |M| ==> M[i].payload == D[i])
            && Linked(M)
  {
    Sequences.DistinctInsert(N, 0, n);
    assert N[..0] + [n] + N[0..] == [n] + N;
  }

  /**
   * The chain `N` holding `C`, with the node at position `k` bypassed (its
   * neighbours joined to each other): the chain now skips it.
   */
  lemma CutFromChain<T>(N: seq<LinkedListNode<T>>, C: seq<T>, R: set<object>, k: nat)
    requires k < |N| == |C|
    requires forall i :: 0 <= i < |N| ==> N[i] in R && N[i].payload == C[i]
    requires Sequences.Distinct(N)
    requires forall i {:trigger N[i].nextNode} :: 0 <= i < |N| - 1 && i != k - 1 && i != k ==> N[i].nextNode == N[i + 1]
    requires forall i {:trigger N[i].previousNode} :: 0 < i < |N| && i != k && i != k + 1 ==> N[i].previousNode == N[i - 1]
    requires 0 < k < |N| - 1 ==> N[k - 1].nextNode == N[k + 1] && N[k + 1].previousNode == N[k - 1]
    ensures var M, D := N[..k] + N[k + 1..], C[..k] + C[k + 1..];
            && |M| == |D| == |N| - 1
            && (forall i {:trigger M[i]} :: 0 <= i < |M| ==> M[i] == if i < k then N[i] else N[i + 1])
            && (forall i :: 0 <= i < |M| ==> M[i] in R)
            && Sequences.Distinct(M) && N[k] !in M
            && (forall i :: 0 <= i < |M| ==> M[i].payload == D[i])
            && Linked(M)
  {
    Sequences.DistinctRemove(N, k);
    var M, D := N[..k] + N[k + 1..], C[..k] + C[k + 1..];
    forall i {:trigger M[i]} | 0 <= i < |M|
      ensures M[i] == (if i < k then N[i] else N[i + 1])
      ensures D[i] == (if i < k then C[i] else C[i + 1])
    {
    }
  }

  class LinkedList<T(==)> {
    var firstNode: LinkedListNode?<T>
    var lastNode: LinkedListNode?<T>
    var numberElements: int
    ghost var Nodes: seq<LinkedListNode<T>>
    ghost var Contents: seq<T>
    ghost var Repr: set<object>

    /** The nodes form one forward and backward chain holding `Contents`. */
    ghost predicate Valid()
      reads this, Repr
    {
      && this in Repr
      && |Nodes| == |Contents| == numberElements
      && (forall i :: 0 <= i < |Nodes| ==> Nodes[i] in Repr)
      && Sequences.Distinct(Nodes)
      && (|Nodes| == 0 ==> firstNode == null && lastNode == null)
      && (0 < |Nodes| ==> firstNode == Nodes[0] && lastNode == Nodes[|Nodes| - 1])
      && (0 < |Nodes| ==> Nodes[0].previousNode == null && Nodes[|Nodes| - 1].nextNode == null)
      && (forall i :: 0 <= i < |Nodes| ==> Nodes[i].payload == Contents[i])
      && Linked(Nodes)
    }

    /**
     * A list holding `initial` in order: the elements an optional initial
     * collection yields, each appended with `Add` (empty when there is none).
     */
    constructor (initial: seq<T>)
      ensures Valid() && fresh(Repr) && Contents == initial
    {
      firstNode := null;
      lastNode := null;
      numberElements := 0;
      Nodes := [];
      Contents := [];
      Repr := {this};
      new;
      var i := 0;
      while i < |initial|
        invariant 0 <= i <= |initial|
        invariant Valid() && fresh(Repr) && Contents == initial[..i]
      {
        var _ := Add(initial[i]);
        assert initial[..i + 1] == initial[..i] + [initial[i]];
        i := i + 1;
      }
      assert initial[..i] == initial;
    }

    /** Appends `t` (also `addLast`, `offer`, `offerLast`); always reports a change. */
    method Add(t: T) returns (changed: bool)
      requires Valid()
      modifies Repr
      ensures Valid() && fresh(Repr - old(Repr))
      ensures Contents == old(Contents) + [t]
      ensures changed
    {
      var lln := new LinkedListNode(t);
      if firstNode == null {
        firstNode := lln;
        lastNode := lln;
        numberElements := 1;
        Nodes, Contents, Repr := [lln], [t], Repr + {lln};
        return true;
      }
      ghost var N := Nodes;
      LinkBetween(lastNode, lln, null);
      Nodes, Contents, Repr := Nodes + [lln], Contents + [t], Repr + {lln};
      forall i {:trigger N[i].nextNode} | 0 <= i < |N| - 1
        ensures N[i].nextNode == N[i + 1]
      {
        Sequences.DistinctAt(N, i, |N| - 1);
      }
      AppendToChain(N, old(Contents), old(Repr), lln, t);
      return true;
    }

    /**
     * The pointer writes that link a fresh node in: `newnode` goes between
     * `previous` and `following`, and a missing neighbour makes it the new
     * list end on that side. The count rises by one.
     */
    method LinkBetween(previous: LinkedListNode?<T>, newnode: LinkedListNode<T>, following: LinkedListNode?<T>)
      requires newnode != previous && newnode != following && (previous == null || previous != following)
      modifies this, previous, newnode, following
      ensures firstNode == (if previous == null then newnode else old(firstNode))
      ensures lastNode == (if following == null then newnode else old(lastNode))
      ensures numberElements == old(numberElements) + 1
      ensures Nodes == old(Nodes) && Contents == old(Contents) && Repr == old(Repr)
      ensures newnode.previousNode == previous && newnode.nextNode == following && unchanged(newnode`payload)
      ensures previous != null ==> previous.nextNode == newnode && unchanged(previous`previousNode, previous`payload)
      ensures following != null ==> following.previousNode == newnode && unchanged(following`nextNode, following`payload)
    {
      newnode.nextNode := following;
      newnode.previousNode := previous;
      if previous != null {
        previous.nextNode := newnode;
      } else {
        firstNode := newnode;
      }
      if following != null {
        following.previousNode := newnode;
      } else {
        lastNode := newnode;
      }
      numberElements := numberElements + 1;
    }

    /** Prepends `t` (also `offerFirst`); always reports a change. */
    method AddFirst(t: T) returns (changed: bool)
      requires Valid()
      modifies Repr
      ensures Valid() && fresh(Repr - old(Repr))
      ensures Contents == [t] + old(Contents)
      ensures changed
    {
      var lln := new LinkedListNode(t);
      if firstNode == null {
        firstNode := lln;
        lastNode := lln;
        numberElements := 1;
        Nodes, Contents, Repr := [lln], [t], Repr + {lln};
        return true;
      }
      ghost var N := Nodes;
      LinkBetween(null, lln, firstNode);
      Nodes, Contents, Repr := [lln] + Nodes, [t] + Contents, Repr + {lln};
      forall i {:trigger N[i].previousNode} | 0 < i < |N|
        ensures N[i].previousNode == N[i - 1]
      {
        Sequences.DistinctAt(N, i, 0);
      }
      PrependToChain(N, old(Contents), old(Repr), lln, t);
      return true;
    }

    /**
     * Inserts `t` at position `index`; an index at or past the end appends and a
     * negative index changes nothing. On an empty list the source sets only one
     * of the two ends (see `AddIndexAsWritten`); this version also sets the other.
     */
    method AddIndex(index: int, t: T)
      requires Valid()
      modifies Repr
      ensures Valid() && fresh(Repr - old(Repr))
      ensures index < 0 ==> Contents == old(Contents)
      ensures 0 <= index <= |old(Contents)| ==> Contents == old(Contents)[..index] + [t] + old(Contents)[index..]
      ensures |old(Contents)| <= index ==> Contents == old(Contents) + [t]
    {
      if index == 0 {
        LinkFirst(t);
        return;
      }
      if index >= numberElements {
        LinkLast(t);
        return;
      }
      if index > 0 {
        InsertAt(index, t);
      }
    }

    /** `AddIndex` at index 0: a fresh first node, which is also the last one when the list was empty. */
    method LinkFirst(t: T)
      requires Valid()
      modifies Repr
      ensures Valid() && fresh(Repr - old(Repr))
      ensures Contents == [t] + old(Contents)
    {
      ghost var N := Nodes;
      var newnode := new LinkedListNode(t);
      LinkBetween(null, newnode, firstNode);
      Nodes, Contents, Repr := [newnode] + Nodes, [t] + Contents, Repr + {newnode};
      if 0 < |N| {
        forall i {:trigger N[i].previousNode} | 0 < i < |N|
          ensures N[i].previousNode == N[i - 1]
        {
          Sequences.DistinctAt(N, i, 0);
        }
        PrependToChain(N, old(Contents), old(Repr), newnode, t);
      }
    }

    /** `AddIndex` at or past the end: a fresh last node, which is also the first one when the list was empty. */
    method LinkLast(t: T)
      requires Valid()
      modifies Repr
      ensures Valid() && fresh(Repr - old(Repr))
      ensures Contents == old(Contents) + [t]
    {
      ghost var N := Nodes;
      var newnode := new LinkedListNode(t);
      LinkBetween(lastNode, newnode, null);
      Nodes, Contents, Repr := Nodes + [newnode], Contents + [t], Repr + {newnode};
      if 0 < |N| {
        forall i {:trigger N[i].nextNode} | 0 <= i < |N| - 1
          ensures N[i].nextNode == N[i + 1]
        {
          Sequences.DistinctAt(N, i, |N| - 1);
        }
        AppendToChain(N, old(Contents), old(Repr), newnode, t);
      }
    }

    /** `AddIndex` inside the list: walks to position `index` and links a fresh node in before it. */
    method InsertAt(index: int, t: T)
      requires Valid() && 0 < index < |Contents|
      modifies Repr
      ensures Valid() && fresh(Repr - old(Repr))
      ensures Contents == old(Contents)[..index] + [t] + old(Contents)[index..]
    {
      var offset := 0;
      var node := firstNode;
      var previousnode: LinkedListNode?<T> := null;
      while node != null
        invariant Valid() && Repr == old(Repr) && Contents == old(Contents)
        invariant 0 <= offset <= index
        invariant node == Nodes[offset]
        invariant previousnode == if 0 < offset then Nodes[offset - 1] else null
        decreases |Nodes| - offset
      {
        if index == offset {
          InsertBefore(t, node, previousnode, offset);
          return;
        }
        previousnode := node;
        node := node.nextNode;
        offset := offset + 1;
      }
    }

    /**
     * `addIndex` exactly as the source writes it, on an empty list: index 0
     * sets `firstNode` but leaves `lastNode` null, and a positive index sets
     * `lastNode` but leaves `firstNode` null, although the count becomes 1.
     * (The source's guarded update of the old end node is skipped: there is none.)
     */
    method AddIndexAsWritten(index: int, t: T)
      requires Valid() && Contents == [] && index >= 0
      modifies this
      ensures numberElements == 1
      ensures index == 0 ==> firstNode != null && firstNode.payload == t && lastNode == null
      ensures index > 0 ==> lastNode != null && lastNode.payload == t && firstNode == null
    {
      if index == 0 {
        var newnode := new LinkedListNode(t);
        newnode.nextNode := firstNode;
        firstNode := newnode;
        numberElements := numberElements + 1;
        return;
      }
      if index >= numberElements {
        var newnode := new LinkedListNode(t);
        newnode.previousNode := lastNode;
        lastNode := newnode;
        numberElements := numberElements + 1;
        return;
      }
    }

    /**
     * The middle case of `AddIndex`: a fresh node holding `t` goes between
     * `previousnode` (position `k - 1`) and `node` (position `k`).
     */
    method InsertBefore(t: T, node: LinkedListNode<T>, previousnode: LinkedListNode?<T>, ghost k: nat)
      requires Valid() && 0 < k < |Nodes| && node == Nodes[k] && previousnode == Nodes[k - 1]
      modifies Repr
      ensures Valid() && fresh(Repr - old(Repr))
      ensures Contents == old(Contents)[..k] + [t] + old(Contents)[k..]
    {
      ghost var N := Nodes;
      var newnode := new LinkedListNode(t);
      Sequences.DistinctAt(N, k - 1, k);
      LinkBetween(previousnode, newnode, node);
      Nodes, Contents, Repr := N[..k] + [newnode] + N[k..], Contents[..k] + [t] + Contents[k..], Repr + {newnode};
      forall i {:trigger N[i].nextNode} | 0 <= i < |N| - 1 && i != k - 1
        ensures N[i].nextNode == N[i + 1]
      {
        Sequences.DistinctAt(N, i, k - 1);
      }
      forall i {:trigger N[i].previousNode} | 0 < i < |N| && i != k
        ensures N[i].previousNode == N[i - 1]
      {
        Sequences.DistinctAt(N, i, k);
      }
      Sequences.DistinctAt(N, 0, k);
      Sequences.DistinctAt(N, |N| - 1, k - 1);
      SpliceInChain(N, old(Contents), old(Repr), k, newnode, t);
    }

    /** True exactly when the list has no element. */
    function IsEmpty(): (b: bool)
      reads this, Repr
      requires Valid()
      ensures b <==> Contents == []
    {
      firstNode == null
    }

    /** Empties the list. */
    method Clear()
      requires Valid()
      modifies this
      ensures Valid() && Repr == old(Repr) && Contents == []
    {
      firstNode := null;
      lastNode := null;
      numberElements := 0;
      Nodes, Contents := [], [];
    }

    /** The number of elements. */
    function Size(): (n: int)
      reads this, Repr
      requires Valid()
      ensures n == |Contents|
    {
      numberElements
    }

    /** The first node whose payload equals `t`, with its position; null when none does. */
    method GetNode(t: T) returns (node: LinkedListNode?<T>, ghost k: int)
      requires Valid()
      ensures k == Sequences.FirstIndex(Contents, t)
      ensures node == if k < 0 then null else Nodes[k]
    {
      node := firstNode;
      k := 0;
      while node != null
        invariant 0 <= k <= |Nodes|
        invariant node == if k < |Nodes| then Nodes[k] else null
        invariant t !in Contents[..k]
        decreases |Nodes| - k
      {
        if node.payload == t {
          return;
        }
        node := node.nextNode;
        k := k + 1;
      }
      assert Contents[..k] == Contents;
      return null, -1;
    }

    /** True exactly when some element equals `t`. */
    method Contains(t: T) returns (b: bool)
      requires Valid()
      ensures b <==> t in Contents
    {
      var lln, _ := GetNode(t);
      b := lln != null;
    }

    /** Hands each element, first to last, to the consumer: the elements visited, in order. */
    method ForEach() returns (visited: seq<T>)
      requires Valid()
      ensures visited == Contents
    {
      var iter := new LinkedListJIterator(this);
      visited := [];
      var more := iter.HasNext();
      while more
        invariant iter.Valid() && iter.list == this
        invariant visited == Contents[..iter.Index]
        invariant more <==> iter.Index < |Contents|
        decreases |Contents| - iter.Index
      {
        var t := iter.Next();
        visited := visited + [t];
        more := iter.HasNext();
      }
      assert Contents[..iter.Index] == Contents;
    }

    /** The first element, or None when empty. */
    function GetFirst(): (r: Option<T>)
      reads this, Repr
      requires Valid()
      ensures r == if Contents == [] then None else Some(Contents[0])
    {
      if firstNode == null then None else Some(firstNode.payload)
    }

    /** The last element, or None when empty. */
    function GetLast(): (r: Option<T>)
      reads this, Repr
      requires Valid()
      ensures r == if Contents == [] then None else Some(Contents[|Contents| - 1])
    {
      if lastNode == null then None else Some(lastNode.payload)
    }

    /**
     * Joins `previous` and `following`, the neighbours of a node being
     * removed, to each other; a missing neighbour makes the other one the
     * new list end. The count drops by one.
     */
    method Join(previous: LinkedListNode?<T>, following: LinkedListNode?<T>)
      requires previous == null || previous != following
      modifies this, previous, following
      ensures firstNode == (if previous == null then following else old(firstNode))
      ensures lastNode == (if following == null then previous else old(lastNode))
      ensures numberElements == old(numberElements) - 1
      ensures Nodes == old(Nodes) && Contents == old(Contents) && Repr == old(Repr)
      ensures previous != null ==> previous.nextNode == following && unchanged(previous`previousNode, previous`payload)
      ensures following != null ==> following.previousNode == previous && unchanged(following`nextNode, following`payload)
    {
      if previous != null {
        previous.nextNode := following;
      } else {
        firstNode := following;
      }
      if following != null {
        following.previousNode := previous;
      } else {
        lastNode := previous;
      }
      numberElements := numberElements - 1;
    }

    /**
     * Bypasses the node at position `k`: its neighbours (or the list ends) are
     * joined to each other and the count drops by one. The node itself keeps
     * its pointers.
     */
    method Bypass(node: LinkedListNode<T>, ghost k: nat)
      requires Valid() && k < |Nodes| && node == Nodes[k]
      modifies Repr
      ensures Valid() && Repr == old(Repr)
      ensures Nodes == old(Nodes)[..k] + old(Nodes)[k + 1..]
      ensures Contents == old(Contents)[..k] + old(Contents)[k + 1..]
      ensures node !in Nodes && node in Repr && node.payload == old(node.payload)
    {
      ghost var N := Nodes;
      var previous := node.previousNode;
      var following := node.nextNode;
      if 0 < k < |N| - 1 {
        Sequences.DistinctAt(N, k - 1, k + 1);
      }
      Join(previous, following);
      Nodes, Contents := N[..k] + N[k + 1..], Contents[..k] + Contents[k + 1..];
      forall i {:trigger N[i].nextNode} | 0 <= i < |N| - 1 && i != k - 1 && i != k
        ensures N[i].nextNode == N[i + 1]
      {
        if 0 < k {
          Sequences.DistinctAt(N, i, k - 1);
        }
      }
      forall i {:trigger N[i].previousNode} | 0 < i < |N| && i != k && i != k + 1
        ensures N[i].previousNode == N[i - 1]
      {
        if k + 1 < |N| {
          Sequences.DistinctAt(N, i, k + 1);
        }
      }
      if 0 < k && k + 1 < |N| {
        Sequences.DistinctAt(N, 0, k + 1);
        Sequences.DistinctAt(N, |N| - 1, k - 1);
      }
      CutFromChain(N, old(Contents), Repr, k);
    }

    /** Bypasses the node at position `k` and then clears its own pointers. */
    method Unlink(node: LinkedListNode<T>, ghost k: nat)
      requires Valid() && k < |Nodes| && node == Nodes[k]
      modifies Repr
      ensures Valid() && Repr == old(Repr)
      ensures Contents == old(Contents)[..k] + old(Contents)[k + 1..]
      ensures node.nextNode == null && node.previousNode == null
    {
      Bypass(node, k);
      node.nextNode := null;
      node.previousNode := null;
    }

    /**
     * Unlinks the first node whose payload equals `t` and clears its pointers;
     * reports whether there was one. The other elements keep their order.
     */
    method Remove(t: T) returns (removed: bool)
      requires Valid()
      modifies Repr
      ensures Valid() && Repr == old(Repr)
      ensures removed <==> t in old(Contents)
      ensures Contents == Sequences.RemoveFirst(old(Contents), t)
    {
      if firstNode == null {
        return false;
      }
      var node := firstNode;
      ghost var offset := 0;
      while node != null
        invariant Valid() && Repr == old(Repr) && Contents == old(Contents)
        invariant 0 <= offset <= |Nodes|
        invariant node == if offset < |Nodes| then Nodes[offset] else null
        invariant t !in Contents[..offset]
        decreases |Nodes| - offset
      {
        if node.payload == t {
          assert Sequences.FirstIndex(Contents, t) == offset;
          Sequences.RemoveFirstAt(Contents, t);
          Unlink(node, offset);
          return true;
        }
        node := node.nextNode;
        offset := offset + 1;
      }
      assert Contents[..offset] == Contents;
      return false;
    }

    /** The index of the first element equal to `t`, or -1. */
    method IndexOf(t: T) returns (r: int)
      requires Valid()
      ensures r == Sequences.FirstIndex(Contents, t)
    {
      if firstNode == null {
        return -1;
      }
      if numberElements <= 0 {
        return -1;
      }
      var offset := 0;
      var node := firstNode;
      while node != null
        invariant 0 <= offset <= |Nodes|
        invariant node == if offset < |Nodes| then Nodes[offset] else null
        invariant t !in Contents[..offset]
        decreases |Nodes| - offset
      {
        if node.payload == t {
          return offset;
        }
        node := node.nextNode;
        offset := offset + 1;
      }
      assert Contents[..offset] == Contents;
      return -1;
    }

    /** The index of the last element equal to `t`, or -1; walks backwards from `lastNode`. */
    method LastIndexOf(t: T) returns (r: int)
      requires Valid()
      ensures r == Sequences.LastIndex(Contents, t)
    {
      if firstNode == null {
        return -1;
      }
      if numberElements <= 0 {
        return -1;
      }
      var offset := numberElements - 1;
      var node := lastNode;
      while node != null
        invariant -1 <= offset < |Nodes|
        invariant node == if 0 <= offset then Nodes[offset] else null
        invariant forall j :: offset < j < |Contents| ==> Contents[j] != t
        decreases offset
      {
        if node.payload == t {
          Sequences.LastIndexAt(Contents, t, offset);
          return offset;
        }
        node := node.previousNode;
        offset := offset - 1;
      }
      Sequences.LastIndexAt(Contents, t, -1);
      return -1;
    }

    /**
     * Removes and returns the element at `index`; an index outside the list
     * returns None and changes nothing.
     */
    method RemoveIndex(index: int) returns (r: Option<T>)
      requires Valid()
      modifies Repr
      ensures Valid() && Repr == old(Repr)
      ensures 0 <= index < |old(Contents)| ==>
                r == Some(old(Contents)[index]) && Contents == old(Contents)[..index] + old(Contents)[index + 1..]
      ensures !(0 <= index < |old(Contents)|) ==> r == None && Contents == old(Contents)
    {
      if firstNode == null {
        return None;
      }
      if numberElements <= 0 {
        return None;
      }
      if index == 0 {
        r := UnlinkFirst();
        return;
      }
      if index == numberElements - 1 {
        r := UnlinkLast();
        return;
      }
      var offset := 0;
      var node := firstNode;
      var previous: LinkedListNode?<T> := null;
      while node != null
        invariant Valid() && Repr == old(Repr) && Contents == old(Contents)
        invariant 0 <= offset <= |Nodes|
        invariant offset <= index || index < 0
        invariant node == if offset < |Nodes| then Nodes[offset] else null
        invariant previous == if 0 < offset then Nodes[offset - 1] else null
        decreases |Nodes| - offset
      {
        if index == offset {
          Bypass(node, offset);
          return Some(node.payload);
        }
        previous := node;
        node := node.nextNode;
        offset := offset + 1;
      }
      return None;
    }

    /** The `index == 0` case of `RemoveIndex` on a non-empty list. */
    method UnlinkFirst() returns (r: Option<T>)
      requires Valid() && Contents != []
      modifies Repr
      ensures Valid() && Repr == old(Repr)
      ensures r == Some(old(Contents)[0]) && Contents == old(Contents)[1..]
    {
      ghost var N := Nodes;
      var payload := firstNode.payload;
      firstNode := firstNode.nextNode;
      numberElements := numberElements - 1;
      if firstNode != null {
        firstNode.previousNode := null;
      }
      if numberElements < 1 {
        numberElements := 0;
        firstNode := null;
        lastNode := null;
      }
      Nodes, Contents := N[1..], Contents[1..];
      forall i {:trigger Nodes[i].nextNode} | 0 <= i < |Nodes| - 1
        ensures Nodes[i].nextNode == Nodes[i + 1]
      {
        assert N[i + 1].nextNode == old(N[i + 1].nextNode);
      }
      forall i {:trigger Nodes[i].previousNode} | 0 < i < |Nodes|
        ensures Nodes[i].previousNode == Nodes[i - 1]
      {
        Sequences.DistinctAt(N, i + 1, 1);
      }
      Sequences.DistinctTail(N);
      return Some(payload);
    }

    /** The `index == size - 1` case of `RemoveIndex` on a list of two or more. */
    method UnlinkLast() returns (r: Option<T>)
      requires Valid() && |Contents| >= 2
      modifies Repr
      ensures Valid() && Repr == old(Repr)
      ensures r == Some(old(Contents)[|old(Contents)| - 1]) && Contents == old(Contents)[..|old(Contents)| - 1]
    {
      ghost var N := Nodes;
      var payload := lastNode.payload;
      lastNode := lastNode.previousNode;
      numberElements := numberElements - 1;
      lastNode.nextNode := null;
      Nodes, Contents := N[..|N| - 1], Contents[..|N| - 1];
      forall i {:trigger Nodes[i].nextNode} | 0 <= i < |Nodes| - 1
        ensures Nodes[i].nextNode == Nodes[i + 1]
      {
        Sequences.DistinctAt(N, i, |N| - 2);
      }
      Sequences.DistinctInit(N);
      return Some(payload);
    }

    /** The element at `index`, or None outside the list. */
    method Get(index: int) returns (r: Option<T>)
      requires Valid()
      ensures r == if 0 <= index < |Contents| then Some(Contents[index]) else None
    {
      var offset := 0;
      var node := firstNode;
      if index == 0 {
        if node == null {
          return None;
        }
        return Some(node.payload);
      }
      if index == numberElements - 1 {
        node := lastNode;
        if node == null {
          return None;
        }
        return Some(node.payload);
      }
      while node != null
        invariant Valid() && Repr == old(Repr) && Contents == old(Contents)
        invariant 0 <= offset <= |Nodes|
        invariant offset <= index || index < 0
        invariant node == if offset < |Nodes| then Nodes[offset] else null
        decreases |Nodes| - offset
      {
        if index == offset {
          return Some(node.payload);
        }
        node := node.nextNode;
        offset := offset + 1;
      }
      return None;
    }

    /**
     * Replaces the element at `index` and returns the previous one; outside the
     * list returns None and changes nothing.
     */
    method Set(index: int, element: T) returns (r: Option<T>)
      requires Valid()
      modifies Repr
      ensures Valid() && Repr == old(Repr)
      ensures 0 <= index < |old(Contents)| ==>
                r == Some(old(Contents)[index]) && Contents == old(Contents)[index := element]
      ensures !(0 <= index < |old(Contents)|) ==> r == None && Contents == old(Contents)
    {
      var offset := 0;
      var node := firstNode;
      while node != null
        invariant Valid() && Repr == old(Repr) && Contents == old(Contents)
        invariant 0 <= offset <= |Nodes|
        invariant offset <= index || index < 0
        invariant node == if offset < |Nodes| then Nodes[offset] else null
        decreases |Nodes| - offset
      {
        if index == offset {
          var tmp := node.payload;
          node.payload := element;
          Contents := Contents[index := element];
          forall i | 0 <= i < |Nodes| && i != index
            ensures Nodes[i].payload == Contents[i]
          {
            Sequences.DistinctAt(Nodes, i, index);
          }
          return Some(tmp);
        }
        node := node.nextNode;
        offset := offset + 1;
      }
      return None;
    }

    /** Removes and returns the head (also `pollFirst`); None when empty. */
    method Poll() returns (r: Option<T>)
      requires Valid()
      modifies Repr
      ensures Valid() && Repr == old(Repr)
      ensures old(Contents) == [] ==> r == None && Contents == []
      ensures old(Contents) != [] ==> r == Some(old(Contents)[0]) && Contents == old(Contents)[1..]
    {
      if firstNode == null {
        return None;
      }
      if numberElements <= 0 {
        return None;
      }
      var element := firstNode.payload;
      var _ := RemoveIndex(0);
      return Some(element);
    }

    /** Removes and returns the tail; None when empty. */
    method PollLast() returns (r: Option<T>)
      requires Valid()
      modifies Repr
      ensures Valid() && Repr == old(Repr)
      ensures old(Contents) == [] ==> r == None && Contents == []
      ensures old(Contents) != [] ==>
                r == Some(old(Contents)[|old(Contents)| - 1]) && Contents == old(Contents)[..|old(Contents)| - 1]
    {
      if firstNode == null {
        return None;
      }
      if numberElements <= 0 {
        return None;
      }
      var element := Get(Size() - 1);
      var _ := RemoveIndex(Size() - 1);
      return element;
    }

    /** The head without removing it (also `peekFirst`, and `element`); None when empty. */
    method Peek() returns (r: Option<T>)
      requires Valid()
      ensures r == if Contents == [] then None else Some(Contents[0])
    {
      if firstNode == null {
        return None;
      }
      if numberElements <= 0 {
        return None;
      }
      return Some(firstNode.payload);
    }

    /** The tail without removing it; None when empty. */
    method PeekLast() returns (r: Option<T>)
      requires Valid()
      ensures r == if Contents == [] then None else Some(Contents[|Contents| - 1])
    {
      if lastNode == null {
        return None;
      }
      if numberElements <= 0 {
        return None;
      }
      return Some(lastNode.payload);
    }
  }

  /** The Java-style iterator: follows `nextNode` from the first node. */
  class LinkedListJIterator<T(==)> {
    var node: LinkedListNode?<T>
    ghost const list: LinkedList<T>
    /** How many elements have been returned. */
    ghost var Index: nat

    ghost predicate Valid()
      reads this, list, list.Repr
    {
      this !in list.Repr && list.Valid() && Index <= |list.Nodes|
      && node == if Index < |list.Nodes| then list.Nodes[Index] else null
    }

    constructor (iList: LinkedList<T>)
      requires iList.Valid()
      ensures Valid() && list == iList && Index == 0
    {
      list := iList;
      node := iList.firstNode;
      Index := 0;
    }

    method HasNext() returns (b: bool)
      requires Valid()
      ensures b <==> Index < |list.Contents|
    {
      b := node != null;
    }

    /** Returns the next element; the source dereferences the node unchecked, so one must remain. */
    method Next() returns (r: T)
      requires Valid() && Index < |list.Contents|
      modifies this
      ensures Valid() && r == list.Contents[old(Index)] && Index == old(Index) + 1
    {
      r := node.payload;
      node := node.nextNode;
      Index := Index + 1;
    }
  }

  /** The TypeScript-protocol iterator over the same chain. */
  class LinkedListIterator<T(==)> {
    var node: LinkedListNode?<T>
    ghost const list: LinkedList<T>
    ghost var Index: nat

    ghost predicate Valid()
      reads this, list, list.Repr
    {
      this !in list.Repr && list.Valid() && Index <= |list.Nodes|
      && node == if Index < |list.Nodes| then list.Nodes[Index] else null
    }

    constructor (iList: LinkedList<T>)
      requires iList.Valid()
      ensures Valid() && list == iList && Index == 0
    {
      list := iList;
      node := iList.firstNode;
      Index := 0;
    }

    method Next() returns (r: IteratorResult<T>)
      requires Valid()
      modifies this
      ensures Valid()
      ensures old(Index) < |list.Contents| ==>
                r == IteratorResult(false, Some(list.Contents[old(Index)])) && Index == old(Index) + 1
      ensures old(Index) == |list.Contents| ==> r == IteratorResult(true, None) && Index == old(Index)
    {
      if node == null {
        r := IteratorResult(true, None);
      } else {
        var tmp := node.payload;
        node := node.nextNode;
        Index := Index + 1;
        r := IteratorResult(false, Some(tmp));
      }
    }
  }
}
