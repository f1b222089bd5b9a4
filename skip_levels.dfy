/**
 * The shape of the skip list behind src/NavigableHash.ts, as values.
 *
 * Nodes live in an arena (`seq<Node<V>>`) and point at each other by arena
 * index; `None` is the source's null. The ordered sequence of live node
 * indices determines every level: level `h` is the subsequence of nodes
 * taller than `h`, doubly linked through `next[h]` and `last[h]` and entered
 * through `head[h]`.
 */
module SkipLevels {
  import opened Wrappers
  import opened Keys

  type Ptr = Option<nat>

  /** The number of levels (`height` in the source). */
  const Height: nat := 3

  /** A node: key, value and one forward and one backward pointer per level. */
  datatype Node<V> = Node(key: Key, value: V, next: seq<Ptr>, last: seq<Ptr>)

  /** A fresh node of `height` levels with every pointer null. */
  function NewNode<V>(key: Key, value: V, height: nat): (n: Node<V>)
    ensures n.key == key && n.value == value && |n.next| == |n.last| == height
    ensures forall h :: 0 <= h < height ==> n.next[h] == None && n.last[h] == None
  {
    Node(key, value, seq(height, _ => None), seq(height, _ => None))
  }

  /** Node `x` exists and takes part in level `h`. */
  predicate Tall<V>(nodes: seq<Node<V>>, x: nat, h: int)
  {
    x < |nodes| && h < |nodes[x].next| && h < |nodes[x].last|
  }

  /** The nodes of `s` that take part in level `h`, in order. */
  function Filter<V>(nodes: seq<Node<V>>, s: seq<nat>, h: int): seq<nat>
  {
    if s == [] then []
    else (if Tall(nodes, s[0], h) then [s[0]] else []) + Filter(nodes, s[1..], h)
  }

  /** Every index of `s` is a node of the arena. */
  predicate InArena<V>(nodes: seq<Node<V>>, s: seq<nat>)
  {
    forall i :: 0 <= i < |s| ==> s[i] < |nodes|
  }

  /** The keys of the nodes of `s`, in order. */
  function KeysOf<V>(nodes: seq<Node<V>>, s: seq<nat>): (ks: seq<Key>)
    requires InArena(nodes, s)
    ensures |ks| == |s| && forall i :: 0 <= i < |s| ==> ks[i] == nodes[s[i]].key
  {
    seq(|s|, i requires 0 <= i < |s| => nodes[s[i]].key)
  }

  /** The nodes of `s` have strictly increasing keys. */
  ghost predicate Sorted<V>(nodes: seq<Node<V>>, s: seq<nat>)
  {
    InArena(nodes, s) && StrictlySorted(KeysOf(nodes, s))
  }

  /**
   * Level `h` is the chain `L`: `hd` is its first node, and each node's
   * `next[h]` and `last[h]` are its successor and predecessor in `L`.
   */
  ghost predicate LevelLinked<V>(nodes: seq<Node<V>>, hd: Ptr, h: nat, L: seq<nat>)
  {
    && (forall t :: 0 <= t < |L| ==> Tall(nodes, L[t], h))
    && hd == (if L == [] then None else Some(L[0]))
    && (L != [] ==> nodes[L[0]].last[h] == None && nodes[L[|L| - 1]].next[h] == None)
    && (forall t {:trigger nodes[L[t]].next[h]} :: 0 <= t < |L| - 1 ==> nodes[L[t]].next[h] == Some(L[t + 1]))
    && (forall t {:trigger nodes[L[t]].last[h]} :: 0 < t < |L| ==> nodes[L[t]].last[h] == Some(L[t - 1]))
  }

  /** Sets `next[h]` of node `x`. */
  function SetNext<V>(nodes: seq<Node<V>>, x: nat, h: nat, p: Ptr): seq<Node<V>>
    requires Tall(nodes, x, h)
  {
    nodes[x := nodes[x].(next := nodes[x].next[h := p])]
  }

  /** Sets `last[h]` of node `x`. */
  function SetLast<V>(nodes: seq<Node<V>>, x: nat, h: nat, p: Ptr): seq<Node<V>>
    requires Tall(nodes, x, h)
  {
    nodes[x := nodes[x].(last := nodes[x].last[h := p])]
  }

  /**
   * Splices `n` in after `a` on level `h`, as the source does: `a` points
   * forward to `n`, `n` back to `a`, and, when `a` had a successor `b`, `n`
   * forward to `b` and `b` back to `n`.
   */
  function SpliceAfter<V>(nodes: seq<Node<V>>, h: nat, a: nat, n: nat, b: Ptr): seq<Node<V>>
    requires Tall(nodes, a, h) && Tall(nodes, n, h) && (b.Some? ==> Tall(nodes, b.value, h))
  {
    var n1 := SetLast(SetNext(nodes, a, h, Some(n)), n, h, Some(a));
    if b.None? then n1 else SetLast(SetNext(n1, n, h, b), b.value, h, Some(n))
  }

  /** Puts `n` in front of the level's first node `hd`, if any. */
  function SpliceFront<V>(nodes: seq<Node<V>>, h: nat, n: nat, hd: Ptr): seq<Node<V>>
    requires Tall(nodes, n, h) && (hd.Some? ==> Tall(nodes, hd.value, h))
  {
    var n1 := SetNext(nodes, n, h, hd);
    if hd.None? then n1 else SetLast(n1, hd.value, h, Some(n))
  }

  /** Joins a removed node's neighbours `ln` and `nn` on level `h`. */
  function Bypass<V>(nodes: seq<Node<V>>, h: nat, ln: Ptr, nn: Ptr): seq<Node<V>>
    requires ln.Some? ==> Tall(nodes, ln.value, h)
    requires nn.Some? ==> Tall(nodes, nn.value, h)
  {
    var n1 := if ln.Some? then SetNext(nodes, ln.value, h, nn) else nodes;
    if nn.Some? then SetLast(n1, nn.value, h, ln) else n1
  }

  /** Keys, values and heights agree node by node. */
  ghost predicate SameShape<V>(nodes: seq<Node<V>>, nodes': seq<Node<V>>)
  {
    && |nodes'| == |nodes|
    && (forall x :: 0 <= x < |nodes| ==>
          && nodes'[x].key == nodes[x].key && nodes'[x].value == nodes[x].value
          && |nodes'[x].next| == |nodes[x].next| && |nodes'[x].last| == |nodes[x].last|)
  }

  /** Same shape, and every pointer outside level `h` agrees. */
  ghost predicate SameExceptLevel<V>(nodes: seq<Node<V>>, nodes': seq<Node<V>>, h: nat)
  {
    && SameShape(nodes, nodes')
    && (forall x :: 0 <= x < |nodes| ==>
          && (forall g :: 0 <= g < |nodes[x].next| && g != h ==> nodes'[x].next[g] == nodes[x].next[g])
          && (forall g :: 0 <= g < |nodes[x].last| && g != h ==> nodes'[x].last[g] == nodes[x].last[g]))
  }

  /** Every node of `s` is unchanged at level `h`, in shape and key. */
  ghost predicate SameOnLevel<V>(nodes: seq<Node<V>>, nodes': seq<Node<V>>, h: nat, s: seq<nat>)
  {
    forall t :: 0 <= t < |s| && Tall(nodes, s[t], h) ==>
      && s[t] < |nodes'|
      && |nodes'[s[t]].next| == |nodes[s[t]].next| && |nodes'[s[t]].last| == |nodes[s[t]].last|
      && nodes'[s[t]].next[h] == nodes[s[t]].next[h]
      && nodes'[s[t]].last[h] == nodes[s[t]].last[h]
  }

  // ----- Filter -----

  lemma {:induction false} FilterConcat<V>(nodes: seq<Node<V>>, a: seq<nat>, b: seq<nat>, h: int)
    ensures Filter(nodes, a + b, h) == Filter(nodes, a, h) + Filter(nodes, b, h)
    decreases |a|
  {
    if a != [] {
      assert (a + b)[0] == a[0] && (a + b)[1..] == a[1..] + b;
      FilterConcat(nodes, a[1..], b, h);
    } else {
      assert a + b == b;
    }
  }

  lemma {:induction false} FilterMembers<V>(nodes: seq<Node<V>>, s: seq<nat>, h: int)
    ensures forall x :: x in Filter(nodes, s, h) <==> x in s && Tall(nodes, x, h)
    decreases |s|
  {
    if s != [] {
      FilterMembers(nodes, s[1..], h);
      assert s == [s[0]] + s[1..];
    }
  }

  /** Filtering keeps the order of `s`, so sorted stays sorted. */
  lemma {:induction false} FilterSorted<V>(nodes: seq<Node<V>>, s: seq<nat>, h: int)
    requires Sorted(nodes, s)
    ensures Sorted(nodes, Filter(nodes, s, h))
    decreases |s|
  {
    if s != [] {
      var rest := Filter(nodes, s[1..], h);
      FilterSorted(nodes, s[1..], h);
      FilterMembers(nodes, s[1..], h);
      FilterMembers(nodes, s, h);
      var f := Filter(nodes, s, h);
      if Tall(nodes, s[0], h) {
        forall i, j | 0 <= i < j < |f|
          ensures Less(nodes[f[i]].key, nodes[f[j]].key)
        {
          if i > 0 {
            assert f[i] == rest[i - 1] && f[j] == rest[j - 1];
          } else {
            assert f[j] == rest[j - 1] && f[j] in s[1..];
            var k :| 1 <= k < |s| && s[k] == f[j];
          }
        }
      }
    }
  }

  lemma {:induction false} FilterAll<V>(nodes: seq<Node<V>>, s: seq<nat>, h: int)
    requires forall i :: 0 <= i < |s| ==> Tall(nodes, s[i], h)
    ensures Filter(nodes, s, h) == s
    decreases |s|
  {
    if s != [] {
      FilterAll(nodes, s[1..], h);
    }
  }

  lemma {:induction false} FilterNone<V>(nodes: seq<Node<V>>, s: seq<nat>, h: int)
    requires forall i :: 0 <= i < |s| ==> !Tall(nodes, s[i], h)
    ensures Filter(nodes, s, h) == []
    decreases |s|
  {
    if s != [] {
      FilterNone(nodes, s[1..], h);
    }
  }

  /** Filtering for a level after filtering for a lower one is filtering for the higher level. */
  lemma {:induction false} FilterFilter<V>(nodes: seq<Node<V>>, s: seq<nat>, g: int, h: int)
    requires g <= h
    ensures Filter(nodes, Filter(nodes, s, g), h) == Filter(nodes, s, h)
    decreases |s|
  {
    if s != [] {
      FilterFilter(nodes, s[1..], g, h);
      var rest := Filter(nodes, s[1..], g);
      if Tall(nodes, s[0], g) {
        assert Filter(nodes, s, g) == [s[0]] + rest;
        FilterConcat(nodes, [s[0]], rest, h);
        assert Filter(nodes, [s[0]], h) == if Tall(nodes, s[0], h) then [s[0]] else [];
      } else {
        assert !Tall(nodes, s[0], h);
        assert Filter(nodes, s, g) == rest;
        assert Filter(nodes, s, h) == [] + Filter(nodes, s[1..], h);
      }
    }
  }

  /** Filtering depends only on the heights of the nodes of `s`. */
  lemma {:induction false} FilterSameHeights<V>(nodes: seq<Node<V>>, nodes': seq<Node<V>>, s: seq<nat>, h: int)
    requires forall i :: 0 <= i < |s| ==> (Tall(nodes, s[i], h) <==> Tall(nodes', s[i], h))
    ensures Filter(nodes', s, h) == Filter(nodes, s, h)
    decreases |s|
  {
    if s != [] {
      FilterSameHeights(nodes, nodes', s[1..], h);
    }
  }

  // ----- Level frames -----

  /** A chain stays linked when its nodes are unchanged at its level. */
  lemma LevelLinkedFrame<V>(nodes: seq<Node<V>>, nodes': seq<Node<V>>, hd: Ptr, h: nat, L: seq<nat>)
    requires LevelLinked(nodes, hd, h, L)
    requires SameOnLevel(nodes, nodes', h, L)
    ensures LevelLinked(nodes', hd, h, L)
  {
    forall t | 0 <= t < |L|
      ensures Tall(nodes', L[t], h)
      ensures nodes'[L[t]].next[h] == nodes[L[t]].next[h] && nodes'[L[t]].last[h] == nodes[L[t]].last[h]
    {
    }
  }

  lemma SameExceptLevelIsSameOnOthers<V>(nodes: seq<Node<V>>, nodes': seq<Node<V>>, h: nat, g: nat, s: seq<nat>)
    requires SameExceptLevel(nodes, nodes', h) && g != h
    ensures SameOnLevel(nodes, nodes', g, s)
  {
    forall t | 0 <= t < |s| && Tall(nodes, s[t], g)
      ensures nodes'[s[t]].next[g] == nodes[s[t]].next[g] && nodes'[s[t]].last[g] == nodes[s[t]].last[g]
    {
      var x := s[t];
      assert forall g' :: 0 <= g' < |nodes[x].next| && g' != h ==> nodes'[x].next[g'] == nodes[x].next[g'];
      assert forall g' :: 0 <= g' < |nodes[x].last| && g' != h ==> nodes'[x].last[g'] == nodes[x].last[g'];
    }
  }

  lemma SameExceptLevelTrans<V>(n1: seq<Node<V>>, n2: seq<Node<V>>, n3: seq<Node<V>>, h: nat)
    requires SameExceptLevel(n1, n2, h) && SameExceptLevel(n2, n3, h)
    ensures SameExceptLevel(n1, n3, h)
  {
  }

  lemma SameShapeTrans<V>(n1: seq<Node<V>>, n2: seq<Node<V>>, n3: seq<Node<V>>)
    requires SameShape(n1, n2) && SameShape(n2, n3)
    ensures SameShape(n1, n3)
  {
  }

  lemma SetNextSameExcept<V>(nodes: seq<Node<V>>, x: nat, h: nat, p: Ptr)
    requires Tall(nodes, x, h)
    ensures SameExceptLevel(nodes, SetNext(nodes, x, h, p), h)
  {
  }

  lemma SetLastSameExcept<V>(nodes: seq<Node<V>>, x: nat, h: nat, p: Ptr)
    requires Tall(nodes, x, h)
    ensures SameExceptLevel(nodes, SetLast(nodes, x, h, p), h)
  {
  }

  /** Keys and heights survive any change that keeps the shape. */
  lemma SameShapeKeepsFilters<V>(nodes: seq<Node<V>>, nodes': seq<Node<V>>, s: seq<nat>)
    requires SameShape(nodes, nodes') && InArena(nodes, s)
    ensures InArena(nodes', s) && KeysOf(nodes', s) == KeysOf(nodes, s)
    ensures forall g :: Filter(nodes', s, g) == Filter(nodes, s, g)
  {
    forall g
      ensures Filter(nodes', s, g) == Filter(nodes, s, g)
    {
      FilterSameHeights(nodes, nodes', s, g);
    }
  }

  // ----- Relinking one level -----

  /** No node occurs twice. */
  ghost predicate Distinct(s: seq<nat>)
  {
    forall i, j :: 0 <= i < j < |s| ==> s[i] != s[j]
  }

  /** In a sequence without repetitions only position `k` holds `s[k]`. */
  lemma DistinctAt(s: seq<nat>, k: nat)
    requires Distinct(s) && k < |s|
    ensures forall t :: 0 <= t < |s| && t != k ==> s[t] != s[k]
  {
    forall t | 0 <= t < |s| && t != k
      ensures s[t] != s[k]
    {
      if t > k {
        assert s[k] != s[t];
      }
    }
  }

  /**
   * `F` differs from `nodes`, whose level `h` links `A + B`, only in the
   * pointers that splice `n` in after the last node of `A`.
   */
  ghost predicate SpliceFrame<V>(nodes: seq<Node<V>>, F: seq<Node<V>>, hd: Ptr, h: nat, A: seq<nat>, B: seq<nat>, n: nat)
  {
    && LevelLinked(nodes, hd, h, A + B) && A != []
    && (forall t :: 0 <= t < |A + B| && t != |A| - 1 ==> (A + B)[t] != A[|A| - 1])
    && (B != [] ==> forall t :: 0 <= t < |A + B| && t != |A| ==> (A + B)[t] != B[0])
    && Tall(nodes, n, h) && n !in A && n !in B
    && SameShape(nodes, F)
    && (forall y {:trigger F[y].next[h]} :: 0 <= y < |nodes| && y != A[|A| - 1] && y != n && (B == [] || y != B[0]) && Tall(nodes, y, h) ==>
          F[y].next[h] == nodes[y].next[h])
    && (forall y {:trigger F[y].last[h]} :: 0 <= y < |nodes| && y != A[|A| - 1] && y != n && (B == [] || y != B[0]) && Tall(nodes, y, h) ==>
          F[y].last[h] == nodes[y].last[h])
    && Tall(nodes, A[|A| - 1], h)
    && F[A[|A| - 1]].next[h] == Some(n) && F[A[|A| - 1]].last[h] == nodes[A[|A| - 1]].last[h]
    && F[n].next[h] == (if B == [] then None else Some(B[0])) && F[n].last[h] == Some(A[|A| - 1])
    && (B != [] ==> Tall(nodes, B[0], h) && F[B[0]].last[h] == Some(n) && F[B[0]].next[h] == nodes[B[0]].next[h])
  }

  lemma SpliceNext<V>(nodes: seq<Node<V>>, F: seq<Node<V>>, hd: Ptr, h: nat, A: seq<nat>, B: seq<nat>, n: nat)
    requires SpliceFrame(nodes, F, hd, h, A, B, n)
    ensures forall t :: 0 <= t < |A + [n] + B| ==>
              Tall(F, (A + [n] + B)[t], h) &&
              (t < |A + [n] + B| - 1 ==> F[(A + [n] + B)[t]].next[h] == Some((A + [n] + B)[t + 1]))
  {
    var L, L' := A + B, A + [n] + B;
    var a := A[|A| - 1];
    assert L[|A| - 1] == a;
    if B != [] {
      assert L[|A|] == B[0];
    }
    forall t | 0 <= t < |L'|
      ensures Tall(F, L'[t], h)
      ensures t < |L'| - 1 ==> F[L'[t]].next[h] == Some(L'[t + 1])
    {
      if t < |A| - 1 {
        assert L'[t] == L[t] && L'[t + 1] == L[t + 1];
        assert L[t] != a;
        if B != [] {
          assert L[t] != B[0];
        }
      } else if t == |A| - 1 {
        assert L'[t] == a && L'[t + 1] == n;
      } else if t == |A| {
        assert L'[t] == n;
        if B != [] {
          assert L'[t + 1] == B[0];
        }
      } else {
        var i := t - 1;
        assert L'[t] == L[i] && L[i] == B[i - |A|];
        assert L[i] != a && L[i] != n;
        if t < |L'| - 1 {
          assert L'[t + 1] == L[i + 1];
        }
      }
    }
  }

  lemma SpliceLast<V>(nodes: seq<Node<V>>, F: seq<Node<V>>, hd: Ptr, h: nat, A: seq<nat>, B: seq<nat>, n: nat)
    requires SpliceFrame(nodes, F, hd, h, A, B, n)
    ensures forall t :: 0 < t < |A + [n] + B| ==>
              Tall(F, (A + [n] + B)[t], h) && F[(A + [n] + B)[t]].last[h] == Some((A + [n] + B)[t - 1])
  {
    var L, L' := A + B, A + [n] + B;
    var a := A[|A| - 1];
    assert L[|A| - 1] == a;
    if B != [] {
      assert L[|A|] == B[0];
    }
    forall t | 0 < t < |L'|
      ensures Tall(F, L'[t], h) && F[L'[t]].last[h] == Some(L'[t - 1])
    {
      if t < |A| - 1 {
        assert L'[t] == L[t] && L'[t - 1] == L[t - 1];
        assert L[t] != a;
        if B != [] {
          assert L[t] != B[0];
        }
      } else if t == |A| - 1 {
        assert L'[t] == a && L'[t - 1] == L[t - 1];
      } else if t == |A| {
        assert L'[t] == n && L'[t - 1] == a;
      } else if t == |A| + 1 {
        assert L'[t] == B[0] && L'[t - 1] == n;
      } else {
        var i := t - 1;
        assert L'[t] == L[i] && L[i] == B[i - |A|];
        assert L[i] != a && L[i] != n && L[i] != B[0];
        assert L'[t - 1] == L[i - 1];
      }
    }
  }

  /** Level `h` of a spliced state is the chain `A + [n] + B`. */
  lemma SpliceLinked<V>(nodes: seq<Node<V>>, F: seq<Node<V>>, hd: Ptr, h: nat, A: seq<nat>, B: seq<nat>, n: nat)
    requires SpliceFrame(nodes, F, hd, h, A, B, n)
    ensures LevelLinked(F, hd, h, A + [n] + B)
  {
    SpliceNext(nodes, F, hd, h, A, B, n);
    SpliceLast(nodes, F, hd, h, A, B, n);
    var L, L' := A + B, A + [n] + B;
    assert L'[0] == L[0] by {
      if |A| > 0 {
        assert L'[0] == A[0];
      }
    }
    if B != [] {
      assert L'[|L'| - 1] == L[|L| - 1];
      assert L[|L| - 1] != A[|A| - 1] && L[|L| - 1] != n;
      if |B| > 1 {
        assert L[|L| - 1] != B[0];
      }
    }
    if |A| > 1 {
      assert L[0] != A[|A| - 1];
      if B != [] {
        assert L[0] != B[0];
      }
    }
  }

  /** What `SpliceAfter` changes, pointer by pointer. */
  lemma SpliceAfterFacts<V>(nodes: seq<Node<V>>, h: nat, a: nat, n: nat, b: Ptr)
    requires Tall(nodes, a, h) && Tall(nodes, n, h) && (b.Some? ==> Tall(nodes, b.value, h))
    requires a != n && b != Some(a) && b != Some(n)
    ensures var F := SpliceAfter(nodes, h, a, n, b);
      && SameExceptLevel(nodes, F, h)
      && (forall y {:trigger F[y].next[h]} :: 0 <= y < |nodes| && y != a && y != n && (b.None? || y != b.value) && Tall(nodes, y, h) ==>
            F[y].next[h] == nodes[y].next[h])
      && (forall y {:trigger F[y].last[h]} :: 0 <= y < |nodes| && y != a && y != n && (b.None? || y != b.value) && Tall(nodes, y, h) ==>
            F[y].last[h] == nodes[y].last[h])
      && F[a].next[h] == Some(n) && F[a].last[h] == nodes[a].last[h]
      && F[n].next[h] == (if b.None? then nodes[n].next[h] else b) && F[n].last[h] == Some(a)
      && (b.Some? ==> F[b.value].last[h] == Some(n) && F[b.value].next[h] == nodes[b.value].next[h])
  {
    var n1 := SetNext(nodes, a, h, Some(n));
    SetNextSameExcept(nodes, a, h, Some(n));
    var n2 := SetLast(n1, n, h, Some(a));
    SetLastSameExcept(n1, n, h, Some(a));
    SameExceptLevelTrans(nodes, n1, n2, h);
    if b.Some? {
      var n3 := SetNext(n2, n, h, b);
      SetNextSameExcept(n2, n, h, b);
      SameExceptLevelTrans(nodes, n2, n3, h);
      SetLastSameExcept(n3, b.value, h, Some(n));
      SameExceptLevelTrans(nodes, n3, SetLast(n3, b.value, h, Some(n)), h);
    }
  }

  /**
   * Linking node `n` in after the last node of `A`, in the order the source
   * does it: the predecessor's forward pointer, the new node's backward
   * pointer, then the two pointers towards the old successor, if any.
   */
  lemma LinkAfter<V>(nodes: seq<Node<V>>, hd: Ptr, h: nat, A: seq<nat>, B: seq<nat>, n: nat)
    requires LevelLinked(nodes, hd, h, A + B) && Distinct(A + B) && A != []
    requires Tall(nodes, n, h) && n !in A && n !in B
    requires nodes[n].next[h] == None && nodes[n].last[h] == None
    ensures Tall(nodes, A[|A| - 1], h) && nodes[A[|A| - 1]].next[h] == (if B == [] then None else Some(B[0]))
    ensures B != [] ==> Tall(nodes, B[0], h)
    ensures LevelLinked(SpliceAfter(nodes, h, A[|A| - 1], n, if B == [] then None else Some(B[0])), hd, h, A + [n] + B)
    ensures SameExceptLevel(nodes, SpliceAfter(nodes, h, A[|A| - 1], n, if B == [] then None else Some(B[0])), h)
  {
    var L := A + B;
    var a := A[|A| - 1];
    var b: Ptr := if B == [] then None else Some(B[0]);
    assert L[|A| - 1] == a;
    assert Tall(nodes, a, h);
    DistinctAt(L, |A| - 1);
    if B != [] {
      assert L[|A|] == B[0];
      assert Tall(nodes, B[0], h);
      DistinctAt(L, |A|);
    }
    SpliceAfterFacts(nodes, h, a, n, b);
    SpliceLinked(nodes, SpliceAfter(nodes, h, a, n, b), hd, h, A, B, n);
  }

  /** What `SpliceFront` changes, pointer by pointer. */
  lemma SpliceFrontFacts<V>(nodes: seq<Node<V>>, h: nat, n: nat, hd: Ptr)
    requires Tall(nodes, n, h) && (hd.Some? ==> Tall(nodes, hd.value, h)) && hd != Some(n)
    ensures var F := SpliceFront(nodes, h, n, hd);
      && SameExceptLevel(nodes, F, h)
      && (forall y {:trigger F[y].next[h]} :: 0 <= y < |nodes| && y != n && Tall(nodes, y, h) ==>
            F[y].next[h] == nodes[y].next[h])
      && (forall y {:trigger F[y].last[h]} :: 0 <= y < |nodes| && y != n && (hd.None? || y != hd.value) && Tall(nodes, y, h) ==>
            F[y].last[h] == nodes[y].last[h])
      && F[n].next[h] == hd && F[n].last[h] == nodes[n].last[h]
      && (hd.Some? ==> F[hd.value].last[h] == Some(n))
  {
    var n1 := SetNext(nodes, n, h, hd);
    SetNextSameExcept(nodes, n, h, hd);
    if hd.Some? {
      SetLastSameExcept(n1, hd.value, h, Some(n));
      SameExceptLevelTrans(nodes, n1, SetLast(n1, hd.value, h, Some(n)), h);
    }
  }

  /** Linking node `n` in at the front of a level, making it the level's head. */
  lemma LinkFront<V>(nodes: seq<Node<V>>, hd: Ptr, h: nat, L: seq<nat>, n: nat)
    requires LevelLinked(nodes, hd, h, L) && Distinct(L)
    requires Tall(nodes, n, h) && n !in L && nodes[n].last[h] == None
    ensures hd.Some? ==> Tall(nodes, hd.value, h)
    ensures LevelLinked(SpliceFront(nodes, h, n, hd), Some(n), h, [n] + L)
    ensures SameExceptLevel(nodes, SpliceFront(nodes, h, n, hd), h)
  {
    if L != [] {
      assert L[0] != n;
      DistinctAt(L, 0);
    }
    SpliceFrontFacts(nodes, h, n, hd);
    var F := SpliceFront(nodes, h, n, hd);
    var L' := [n] + L;
    forall t | 0 <= t < |L'|
      ensures Tall(F, L'[t], h)
      ensures t < |L'| - 1 ==> F[L'[t]].next[h] == Some(L'[t + 1])
      ensures t == |L'| - 1 ==> F[L'[t]].next[h] == None
      ensures 0 < t ==> F[L'[t]].last[h] == Some(L'[t - 1])
      ensures t == 0 ==> F[L'[t]].last[h] == None
    {
      if t > 0 {
        assert L'[t] == L[t - 1] && L[t - 1] != n;
        if t > 1 {
          assert L'[t - 1] == L[t - 2];
        }
        if t < |L'| - 1 {
          assert L'[t + 1] == L[t];
        }
      }
    }
  }

  /**
   * `F` differs from `nodes`, whose level `h` links `A + [x] + B`, only in
   * the pointers that make the neighbours of `x` skip over it.
   */
  ghost predicate BypassFrame<V>(nodes: seq<Node<V>>, F: seq<Node<V>>, hd: Ptr, h: nat, A: seq<nat>, x: nat, B: seq<nat>)
  {
    && LevelLinked(nodes, hd, h, A + [x] + B)
    && (A != [] ==> forall t :: 0 <= t < |A + [x] + B| && t != |A| - 1 ==> (A + [x] + B)[t] != A[|A| - 1])
    && (B != [] ==> forall t :: 0 <= t < |A + [x] + B| && t != |A| + 1 ==> (A + [x] + B)[t] != B[0])
    && SameShape(nodes, F)
    && (forall y {:trigger F[y].next[h]} :: 0 <= y < |nodes| && (A == [] || y != A[|A| - 1]) && (B == [] || y != B[0]) && Tall(nodes, y, h) ==>
          F[y].next[h] == nodes[y].next[h])
    && (forall y {:trigger F[y].last[h]} :: 0 <= y < |nodes| && (A == [] || y != A[|A| - 1]) && (B == [] || y != B[0]) && Tall(nodes, y, h) ==>
          F[y].last[h] == nodes[y].last[h])
    && (A != [] ==> Tall(nodes, A[|A| - 1], h) && F[A[|A| - 1]].last[h] == nodes[A[|A| - 1]].last[h]
                    && F[A[|A| - 1]].next[h] == (if B == [] then None else Some(B[0])))
    && (B != [] ==> Tall(nodes, B[0], h) && F[B[0]].next[h] == nodes[B[0]].next[h]
                    && F[B[0]].last[h] == (if A == [] then None else Some(A[|A| - 1])))
  }

  lemma BypassNext<V>(nodes: seq<Node<V>>, F: seq<Node<V>>, hd: Ptr, h: nat, A: seq<nat>, x: nat, B: seq<nat>)
    requires BypassFrame(nodes, F, hd, h, A, x, B)
    ensures forall t :: 0 <= t < |A + B| ==>
              Tall(F, (A + B)[t], h) &&
              (t < |A + B| - 1 ==> F[(A + B)[t]].next[h] == Some((A + B)[t + 1])) &&
              (t == |A + B| - 1 ==> F[(A + B)[t]].next[h] == None)
  {
    var L, L' := A + [x] + B, A + B;
    assert L[|A|] == x;
    if A != [] {
      assert L[|A| - 1] == A[|A| - 1];
    }
    if B != [] {
      assert L[|A| + 1] == B[0];
    }
    forall t | 0 <= t < |L'|
      ensures Tall(F, L'[t], h)
      ensures t < |L'| - 1 ==> F[L'[t]].next[h] == Some(L'[t + 1])
      ensures t == |L'| - 1 ==> F[L'[t]].next[h] == None
    {
      if t < |A| - 1 {
        assert L'[t] == L[t] && L'[t + 1] == L[t + 1];
        if B != [] {
          assert L[t] != L[|A| + 1];
        }
      } else if t == |A| - 1 {
        assert L'[t] == L[t];
        if B != [] {
          assert L'[t + 1] == B[0];
        }
      } else {
        assert L'[t] == L[t + 1];
        if t < |L'| - 1 {
          assert L'[t + 1] == L[t + 2];
        }
        if A != [] {
          assert L[t + 1] != L[|A| - 1];
        }
      }
    }
  }

  lemma BypassLast<V>(nodes: seq<Node<V>>, F: seq<Node<V>>, hd: Ptr, h: nat, A: seq<nat>, x: nat, B: seq<nat>)
    requires BypassFrame(nodes, F, hd, h, A, x, B)
    ensures forall t :: 0 <= t < |A + B| ==>
              Tall(F, (A + B)[t], h) &&
              (0 < t ==> F[(A + B)[t]].last[h] == Some((A + B)[t - 1])) &&
              (t == 0 ==> F[(A + B)[t]].last[h] == None)
  {
    var L, L' := A + [x] + B, A + B;
    assert L[|A|] == x;
    if A != [] {
      assert L[|A| - 1] == A[|A| - 1];
      assert L[0] == A[0];
    }
    if B != [] {
      assert L[|A| + 1] == B[0];
    }
    forall t | 0 <= t < |L'|
      ensures Tall(F, L'[t], h)
      ensures 0 < t ==> F[L'[t]].last[h] == Some(L'[t - 1])
      ensures t == 0 ==> F[L'[t]].last[h] == None
    {
      if t < |A| {
        assert L'[t] == L[t];
        if 0 < t {
          assert L'[t - 1] == L[t - 1];
        }
        if B != [] {
          assert L[t] != L[|A| + 1];
        }
      } else if t == |A| {
        assert L'[t] == B[0];
        if 0 < t {
          assert L'[t - 1] == A[|A| - 1];
        }
      } else {
        assert L'[t] == L[t + 1];
        assert L'[t - 1] == L[t];
        assert L[t + 1] != L[|A| + 1];
        if A != [] {
          assert L[t + 1] != L[|A| - 1];
        }
      }
    }
  }

  /** What `Bypass` changes, pointer by pointer. */
  lemma BypassFacts<V>(nodes: seq<Node<V>>, h: nat, ln: Ptr, nn: Ptr)
    requires ln.Some? ==> Tall(nodes, ln.value, h)
    requires nn.Some? ==> Tall(nodes, nn.value, h)
    requires ln.Some? && nn.Some? ==> ln.value != nn.value
    ensures var F := Bypass(nodes, h, ln, nn);
      && SameExceptLevel(nodes, F, h)
      && (forall y {:trigger F[y].next[h]} :: 0 <= y < |nodes| && (ln.None? || y != ln.value) && (nn.None? || y != nn.value) && Tall(nodes, y, h) ==>
            F[y].next[h] == nodes[y].next[h])
      && (forall y {:trigger F[y].last[h]} :: 0 <= y < |nodes| && (ln.None? || y != ln.value) && (nn.None? || y != nn.value) && Tall(nodes, y, h) ==>
            F[y].last[h] == nodes[y].last[h])
      && (ln.Some? ==> F[ln.value].next[h] == nn && F[ln.value].last[h] == nodes[ln.value].last[h])
      && (nn.Some? ==> F[nn.value].last[h] == ln && F[nn.value].next[h] == nodes[nn.value].next[h])
  {
    var n1 := if ln.Some? then SetNext(nodes, ln.value, h, nn) else nodes;
    if ln.Some? {
      SetNextSameExcept(nodes, ln.value, h, nn);
    }
    if nn.Some? {
      SetLastSameExcept(n1, nn.value, h, ln);
      if ln.Some? {
        SameExceptLevelTrans(nodes, n1, SetLast(n1, nn.value, h, ln), h);
      }
    }
  }

  /**
   * Unlinking node `x` from a level the way the source does it: the
   * predecessor, if any, skips forward over `x`, the successor, if any,
   * points back past it, and the head moves on when `x` was the head.
   */
  lemma UnlinkLevel<V>(nodes: seq<Node<V>>, hd: Ptr, h: nat, A: seq<nat>, x: nat, B: seq<nat>)
    requires LevelLinked(nodes, hd, h, A + [x] + B) && Distinct(A + [x] + B)
    ensures Tall(nodes, x, h)
    ensures nodes[x].last[h] == (if A == [] then None else Some(A[|A| - 1]))
    ensures nodes[x].next[h] == (if B == [] then None else Some(B[0]))
    ensures (hd == Some(x)) == (A == [])
    ensures A != [] ==> Tall(nodes, A[|A| - 1], h)
    ensures B != [] ==> Tall(nodes, B[0], h)
    ensures var ln, nn := nodes[x].last[h], nodes[x].next[h];
            && LevelLinked(Bypass(nodes, h, ln, nn), if hd == Some(x) then nn else hd, h, A + B)
            && SameExceptLevel(nodes, Bypass(nodes, h, ln, nn), h)
  {
    var L := A + [x] + B;
    assert L[|A|] == x;
    if A != [] {
      assert L[|A| - 1] == A[|A| - 1];
      assert L[0] == A[0] && A[0] != x;
      DistinctAt(L, |A| - 1);
    }
    if B != [] {
      assert L[|A| + 1] == B[0];
      DistinctAt(L, |A| + 1);
    }
    var ln, nn := nodes[x].last[h], nodes[x].next[h];
    BypassFacts(nodes, h, ln, nn);
    var F := Bypass(nodes, h, ln, nn);
    var hd' := if hd == Some(x) then nn else hd;
    BypassNext(nodes, F, hd, h, A, x, B);
    BypassLast(nodes, F, hd, h, A, x, B);
    if A != [] {
      assert (A + B)[0] == A[0];
    }
  }

  // ----- The whole structure -----

  /** Every node of the arena has between 1 and `Height` levels, forward and backward alike. */
  ghost predicate WellFormedArena<V>(nodes: seq<Node<V>>)
  {
    forall x :: 0 <= x < |nodes| ==> 1 <= |nodes[x].next| <= Height && |nodes[x].last| == |nodes[x].next|
  }

  /**
   * The skip list invariant: the live nodes `live` have strictly increasing
   * keys, and every level `h` below `Height` is the doubly linked chain of the
   * live nodes taller than `h`, entered through `head[h]`.
   */
  ghost predicate WellLinked<V>(nodes: seq<Node<V>>, head: seq<Ptr>, live: seq<nat>)
  {
    && |head| == Height
    && WellFormedArena(nodes)
    && Sorted(nodes, live)
    && (forall h :: 0 <= h < Height ==> LevelLinked(nodes, head[h], h, Filter(nodes, live, h)))
  }

  /** Strictly increasing keys leave no room for a repeated node. */
  lemma SortedDistinct<V>(nodes: seq<Node<V>>, s: seq<nat>)
    requires Sorted(nodes, s)
    ensures Distinct(s)
  {
    forall i, j | 0 <= i < j < |s|
      ensures s[i] != s[j]
    {
      CompareIsTotalOrder(nodes[s[i]].key, nodes[s[j]].key, nodes[s[i]].key);
    }
  }

  /** On sorted nodes, a smaller key sits at an earlier position. */
  lemma SortedPositions<V>(nodes: seq<Node<V>>, s: seq<nat>, p: nat, q: nat)
    requires Sorted(nodes, s) && p < |s| && q < |s|
    requires Less(nodes[s[p]].key, nodes[s[q]].key)
    ensures p < q
  {
    if q < p {
      CompareIsTotalOrder(nodes[s[q]].key, nodes[s[p]].key, nodes[s[q]].key);
    } else if q == p {
      CompareIsTotalOrder(nodes[s[p]].key, nodes[s[p]].key, nodes[s[p]].key);
    }
  }

  /** Inserting a node whose key falls between its neighbours keeps the order. */
  lemma SortedInsert<V>(nodes: seq<Node<V>>, s: seq<nat>, c: nat, n: nat)
    requires Sorted(nodes, s) && c <= |s| && n < |nodes|
    requires c > 0 ==> Less(nodes[s[c - 1]].key, nodes[n].key)
    requires c < |s| ==> Less(nodes[n].key, nodes[s[c]].key)
    ensures Sorted(nodes, s[..c] + [n] + s[c..])
  {
    var s' := s[..c] + [n] + s[c..];
    var ks := KeysOf(nodes, s);
    assert KeysOf(nodes, s') == ks[..c] + [nodes[n].key] + ks[c..];
    InsertKeepsSorted(ks, c, nodes[n].key);
  }

  /** Removing a node keeps the order. */
  lemma SortedRemove<V>(nodes: seq<Node<V>>, s: seq<nat>, p: nat)
    requires Sorted(nodes, s) && p < |s|
    ensures Sorted(nodes, s[..p] + s[p + 1..])
  {
    var s' := s[..p] + s[p + 1..];
    forall i, j | 0 <= i < j < |s'|
      ensures Less(nodes[s'[i]].key, nodes[s'[j]].key)
    {
      var i', j' := if i < p then i else i + 1, if j < p then j else j + 1;
      assert s'[i] == s[i'] && s'[j] == s[j'];
    }
  }

  /** Level 0 holds every live node, in order. */
  lemma BaseLevel<V>(nodes: seq<Node<V>>, head: seq<Ptr>, live: seq<nat>)
    requires WellLinked(nodes, head, live)
    ensures Filter(nodes, live, 0) == live
    ensures LevelLinked(nodes, head[0], 0, live)
  {
    FilterAll(nodes, live, 0);
  }

  /** A live node's successor on any of its levels is a live node further on. */
  lemma StepForward<V>(nodes: seq<Node<V>>, head: seq<Ptr>, live: seq<nat>, h: nat, p: nat)
    requires WellLinked(nodes, head, live) && p < |live| && h < |nodes[live[p]].next|
    ensures nodes[live[p]].next[h].Some? ==>
              exists q :: p < q < |live| && live[q] == nodes[live[p]].next[h].value
  {
    var L := Filter(nodes, live, h);
    assert LevelLinked(nodes, head[h], h, L);
    FilterMembers(nodes, live, h);
    var x := live[p];
    assert x in L;
    var t :| 0 <= t < |L| && L[t] == x;
    if t < |L| - 1 {
      var y := L[t + 1];
      assert nodes[L[t]].next[h] == Some(y);
      var q :| 0 <= q < |live| && live[q] == y;
      FilterSorted(nodes, live, h);
      SortedPositions(nodes, live, p, q);
    }
  }

  /** The head of every level is a live node. */
  lemma HeadIsLive<V>(nodes: seq<Node<V>>, head: seq<Ptr>, live: seq<nat>, h: nat)
    requires WellLinked(nodes, head, live) && h < Height
    ensures head[h].Some? ==> exists q :: 0 <= q < |live| && live[q] == head[h].value
  {
    var L := Filter(nodes, live, h);
    assert LevelLinked(nodes, head[h], h, L);
    FilterMembers(nodes, live, h);
    if L != [] {
      assert L[0] in L;
    }
  }

  /** A change confined to level `h` keeps every other level of a range linked. */
  lemma LevelsFrame<V>(n0: seq<Node<V>>, n1: seq<Node<V>>, head0: seq<Ptr>, head1: seq<Ptr>,
                       shape: seq<Node<V>>, s: seq<nat>, lo: nat, hi: nat, h: nat)
    requires SameExceptLevel(n0, n1, h) && |head0| == |head1| == Height
    requires forall g :: 0 <= g < Height && g != h ==> head1[g] == head0[g]
    requires hi <= Height && (h < lo || hi <= h)
    requires forall g :: lo <= g < hi ==> LevelLinked(n0, head0[g], g, Filter(shape, s, g))
    ensures forall g :: lo <= g < hi ==> LevelLinked(n1, head1[g], g, Filter(shape, s, g))
  {
    forall g | lo <= g < hi
      ensures LevelLinked(n1, head1[g], g, Filter(shape, s, g))
    {
      SameExceptLevelIsSameOnOthers(n0, n1, h, g, Filter(shape, s, g));
      LevelLinkedFrame(n0, n1, head0[g], g, Filter(shape, s, g));
    }
  }

  /** The last element of a sequence, if any. */
  function LastOf(s: seq<nat>): Ptr
  {
    if s == [] then None else Some(s[|s| - 1])
  }

  /** No node of `s` after position `t` reaches level `h`. */
  ghost predicate ShortAfter<V>(nodes: seq<Node<V>>, s: seq<nat>, t: int, h: int)
  {
    forall u :: 0 <= u < |s| && t < u ==> !Tall(nodes, s[u], h)
  }

  /** When `s[t]` is the last node of `s` on level `h`, it ends the filtered level. */
  lemma FilterSingle<V>(nodes: seq<Node<V>>, x: nat, h: int)
    ensures Filter(nodes, [x], h) == if Tall(nodes, x, h) then [x] else []
  {
    assert [x][1..] == [];
  }

  lemma {:induction false} LastOfFilter<V>(nodes: seq<Node<V>>, s: seq<nat>, t: int, h: int)
    requires -1 <= t < |s|
    requires t >= 0 ==> Tall(nodes, s[t], h)
    requires forall u :: t < u < |s| ==> !Tall(nodes, s[u], h)
    ensures LastOf(Filter(nodes, s, h)) == if t < 0 then None else Some(s[t])
    decreases |s|
  {
    if s != [] {
      var rest := s[1..];
      forall u | 0 <= u < |rest| && t - 1 < u
        ensures !Tall(nodes, rest[u], h)
      {
        assert rest[u] == s[u + 1];
      }
      if t <= 0 {
        FilterNone(nodes, rest, h);
      } else {
        assert rest[t - 1] == s[t];
        LastOfFilter(nodes, rest, t - 1, h);
      }
    }
  }

  /**
   * Insertion of node `n` between `Pre` and `Post` in progress: the levels
   * below `h` already link it in, the levels from `h` up still link the old
   * chain, and the new node has no links from level `h` up. `shape` is the
   * arena as it was when the insertion started (keys, values, heights).
   */
  ghost predicate Inserting<V>(nodes: seq<Node<V>>, head: seq<Ptr>, shape: seq<Node<V>>,
                               Pre: seq<nat>, n: nat, Post: seq<nat>, h: nat)
  {
    && |head| == Height && SameShape(shape, nodes) && n < |shape|
    && |nodes[n].next| == |shape[n].next| && |nodes[n].last| == |shape[n].last|
    && (forall g :: 0 <= g < h && g < Height ==> LevelLinked(nodes, head[g], g, Filter(shape, Pre + [n] + Post, g)))
    && (forall g :: h <= g < Height ==> LevelLinked(nodes, head[g], g, Filter(shape, Pre + Post, g)))
    && (forall g :: h <= g < |shape[n].next| ==> nodes[n].next[g] == None)
    && (forall g :: h <= g < |shape[n].last| ==> nodes[n].last[g] == None)
  }

  /** What an insertion needs of the arena it started from. */
  ghost predicate InsertionShape<V>(shape: seq<Node<V>>, Pre: seq<nat>, n: nat, Post: seq<nat>)
  {
    && WellFormedArena(shape) && Sorted(shape, Pre + [n] + Post)
    && n < |shape| && n !in Pre && n !in Post
  }

  /** Appending a node that no chain mentions keeps every level linked. */
  lemma AppendKeepsLevel<V>(nodes: seq<Node<V>>, head: seq<Ptr>, live: seq<nat>, nd: Node<V>, g: nat)
    requires WellLinked(nodes, head, live) && g < Height
    ensures LevelLinked(nodes + [nd], head[g], g, Filter(nodes + [nd], live, g))
  {
    var nodes' := nodes + [nd];
    var L := Filter(nodes, live, g);
    assert SameOnLevel(nodes, nodes', g, L) by {
      FilterMembers(nodes, live, g);
    }
    LevelLinkedFrame(nodes, nodes', head[g], g, L);
    assert Filter(nodes', live, g) == L by {
      FilterSameHeights(nodes, nodes', live, g);
    }
  }

  /** A freshly appended node starts an insertion. */
  lemma InsertionStart<V>(nodes: seq<Node<V>>, head: seq<Ptr>, live: seq<nat>, c: nat, nd: Node<V>)
    requires WellLinked(nodes, head, live) && c <= |live|
    requires 1 <= |nd.next| <= Height && |nd.last| == |nd.next|
    requires forall g :: 0 <= g < |nd.next| ==> nd.next[g] == None && nd.last[g] == None
    requires c > 0 ==> Less(nodes[live[c - 1]].key, nd.key)
    requires c < |live| ==> Less(nd.key, nodes[live[c]].key)
    ensures var nodes' := nodes + [nd];
            && Inserting(nodes', head, nodes', live[..c], |nodes|, live[c..], 0)
            && InsertionShape(nodes', live[..c], |nodes|, live[c..])
  {
    var nodes' := nodes + [nd];
    var n := |nodes|;
    assert Inserting(nodes', head, nodes', live[..c], n, live[c..], 0) by {
      assert live[..c] + live[c..] == live;
      forall g | 0 <= g < Height
        ensures LevelLinked(nodes', head[g], g, Filter(nodes', live, g))
      {
        AppendKeepsLevel(nodes, head, live, nd, g);
      }
    }
    assert Sorted(nodes', live[..c] + [n] + live[c..]) by {
      assert Sorted(nodes', live) by {
        assert KeysOf(nodes', live) == KeysOf(nodes, live);
      }
      SortedInsert(nodes', live, c, n);
    }
    assert n !in live[..c] && n !in live[c..] by {
      assert forall i :: 0 <= i < |live| ==> live[i] < n;
    }
  }

  /** A finished insertion links every level: the levels above the new node never contained it. */
  lemma InsertionLevel<V>(nodes: seq<Node<V>>, head: seq<Ptr>, shape: seq<Node<V>>,
                          Pre: seq<nat>, n: nat, Post: seq<nat>, g: nat)
    requires n < |shape| && Inserting(nodes, head, shape, Pre, n, Post, |shape[n].next|) && g < Height
    ensures LevelLinked(nodes, head[g], g, Filter(shape, Pre + [n] + Post, g))
  {
    if g >= |shape[n].next| {
      FilterSkips(shape, Pre, n, Post, g);
    }
  }

  /** A level the node `n` does not reach is the same with or without `n`. */
  lemma FilterSkips<V>(shape: seq<Node<V>>, Pre: seq<nat>, n: nat, Post: seq<nat>, g: nat)
    requires !Tall(shape, n, g)
    ensures Filter(shape, Pre + [n] + Post, g) == Filter(shape, Pre + Post, g)
  {
    FilterConcat(shape, Pre + [n], Post, g);
    FilterConcat(shape, Pre, [n], g);
    FilterConcat(shape, Pre, Post, g);
    FilterSingle(shape, n, g);
  }

  /** A finished insertion leaves the structure well linked, with `n` live between `Pre` and `Post`. */
  lemma InsertionDone<V>(nodes: seq<Node<V>>, head: seq<Ptr>, shape: seq<Node<V>>, Pre: seq<nat>, n: nat, Post: seq<nat>)
    requires InsertionShape(shape, Pre, n, Post)
    requires Inserting(nodes, head, shape, Pre, n, Post, |shape[n].next|)
    ensures WellLinked(nodes, head, Pre + [n] + Post)
  {
    var live := Pre + [n] + Post;
    SameShapeKeepsFilters(shape, nodes, live);
    forall g | 0 <= g < Height
      ensures LevelLinked(nodes, head[g], g, Filter(nodes, live, g))
    {
      InsertionLevel(nodes, head, shape, Pre, n, Post, g);
    }
  }

  /**
   * One backward step of the search for the node to link after on level `h`:
   * a node of the level below that is not tall enough has exactly `h` levels,
   * and its top backward pointer leads to its predecessor on level `h - 1`.
   */
  lemma WalkStep<V>(nodes: seq<Node<V>>, head: seq<Ptr>, shape: seq<Node<V>>,
                    Pre: seq<nat>, n: nat, Post: seq<nat>, h: nat, t: nat)
    requires InsertionShape(shape, Pre, n, Post) && Inserting(nodes, head, shape, Pre, n, Post, h)
    requires h < Height && t < |Filter(shape, Pre, h - 1)| && !Tall(shape, Filter(shape, Pre, h - 1)[t], h)
    ensures var W := Filter(shape, Pre, h - 1);
            && h >= 1 && W[t] < |nodes| && |nodes[W[t]].last| == h
            && nodes[W[t]].last[h - 1] == if t > 0 then Some(W[t - 1]) else None
  {
    var W := Filter(shape, Pre, h - 1);
    FilterMembers(shape, Pre, h - 1);
    assert W[t] in W;
    var x := W[t];
    assert Tall(shape, x, h - 1);
    var L := Filter(shape, Pre + [n] + Post, h - 1);
    FilterConcat(shape, Pre + [n], Post, h - 1);
    FilterConcat(shape, Pre, [n], h - 1);
    assert L == W + Filter(shape, [n], h - 1) + Filter(shape, Post, h - 1);
    assert L[t] == x;
    if t > 0 {
      assert L[t - 1] == W[t - 1];
    }
  }

  /** Where the new node sits on level `h`: between the filtered `Pre` and `Post`, apart from both. */
  lemma LevelParts<V>(shape: seq<Node<V>>, Pre: seq<nat>, n: nat, Post: seq<nat>, h: nat)
    requires InsertionShape(shape, Pre, n, Post) && h < |shape[n].next|
    ensures Filter(shape, Pre + Post, h) == Filter(shape, Pre, h) + Filter(shape, Post, h)
    ensures Filter(shape, Pre + [n] + Post, h) == Filter(shape, Pre, h) + [n] + Filter(shape, Post, h)
    ensures Distinct(Filter(shape, Pre + Post, h))
    ensures n !in Filter(shape, Pre, h) && n !in Filter(shape, Post, h)
    ensures forall y :: y in Filter(shape, Pre, h) ==> y < |shape| && Less(shape[y].key, shape[n].key)
    ensures forall y :: y in Filter(shape, Post, h) ==> y < |shape| && Less(shape[n].key, shape[y].key)
  {
    var s := Pre + [n] + Post;
    assert Filter(shape, Pre + Post, h) == Filter(shape, Pre, h) + Filter(shape, Post, h)
           && Filter(shape, Pre + [n] + Post, h) == Filter(shape, Pre, h) + [n] + Filter(shape, Post, h) by {
      FilterConcat(shape, Pre, Post, h);
      FilterConcat(shape, Pre + [n], Post, h);
      FilterConcat(shape, Pre, [n], h);
      FilterSingle(shape, n, h);
    }
    assert Distinct(Filter(shape, Pre + Post, h)) by {
      assert s[..|Pre|] + s[|Pre| + 1..] == Pre + Post;
      SortedRemove(shape, s, |Pre|);
      FilterSorted(shape, Pre + Post, h);
      SortedDistinct(shape, Filter(shape, Pre + Post, h));
    }
    FilterMembers(shape, Pre, h);
    FilterMembers(shape, Post, h);
    forall y | y in Pre
      ensures y < |shape| && Less(shape[y].key, shape[n].key)
    {
      var i :| 0 <= i < |Pre| && Pre[i] == y;
      assert s[i] == y && s[|Pre|] == n;
    }
    forall y | y in Post
      ensures y < |shape| && Less(shape[n].key, shape[y].key)
    {
      var i :| 0 <= i < |Post| && Post[i] == y;
      assert s[|Pre| + 1 + i] == y && s[|Pre|] == n;
    }
  }

  /** The nodes met while walking back along level `h - 1` are nodes of the arena other than `n`. */
  lemma WalkNode<V>(shape: seq<Node<V>>, Pre: seq<nat>, n: nat, Post: seq<nat>, h: nat, t: nat)
    requires InsertionShape(shape, Pre, n, Post) && t < |Filter(shape, Pre, h - 1)|
    ensures var x := Filter(shape, Pre, h - 1)[t];
            x < |shape| && x != n && (Tall(shape, x, h) <==> h < |shape[x].next|)
  {
    FilterMembers(shape, Pre, h - 1);
    assert Filter(shape, Pre, h - 1)[t] in Filter(shape, Pre, h - 1);
  }

  /** A walk back along level `h - 1` that met no node of level `h` leaves level `h` empty before `n`. */
  lemma WalkExhausted<V>(shape: seq<Node<V>>, Pre: seq<nat>, h: nat)
    requires ShortAfter(shape, Filter(shape, Pre, h - 1), -1, h)
    ensures Filter(shape, Pre, h) == []
  {
    FilterNone(shape, Filter(shape, Pre, h - 1), h);
    FilterFilter(shape, Pre, h - 1, h);
  }

  /**
   * Node `n`, just appended to the arena with every pointer null, is to be
   * linked in between `Pre` and `Post`, the stored nodes with keys below and
   * above its own; the rest of the arena is well linked over `Pre + Post`.
   */
  ghost predicate ReadyToLink<V>(nodes: seq<Node<V>>, head: seq<Ptr>, Pre: seq<nat>, n: nat, Post: seq<nat>)
  {
    && n + 1 == |nodes|
    && WellLinked(nodes[..n], head, Pre + Post)
    && 1 <= |nodes[n].next| <= Height && |nodes[n].last| == |nodes[n].next|
    && (forall g :: 0 <= g < |nodes[n].next| ==> nodes[n].next[g] == None && nodes[n].last[g] == None)
    && InArena(nodes, Pre) && InArena(nodes, Post)
    && (Pre != [] ==> Less(nodes[Pre[|Pre| - 1]].key, nodes[n].key))
    && (Post != [] ==> Less(nodes[n].key, nodes[Post[0]].key))
  }

  /** A fresh node below every key of a well-linked arena starts an insertion at the front. */
  lemma StartFrontInsertion<V>(prior: seq<Node<V>>, head: seq<Ptr>, Post: seq<nat>, key: Key, value: V, height: nat)
    requires WellLinked(prior, head, Post) && 1 <= height <= Height
    requires Post != [] ==> Post[0] < |prior| && Less(key, prior[Post[0]].key)
    ensures var nodes := prior + [NewNode(key, value, height)];
            InsertionShape(nodes, [], |prior|, Post) && Inserting(nodes, head, nodes, [], |prior|, Post, 0)
  {
    assert [] + Post == Post;
    StartInsertion(prior, head, [], Post, key, value, height);
  }

  /** An insertion at the front that reached the new node's top level leaves the node first on every level. */
  lemma FrontInsertionDone<V>(nodes: seq<Node<V>>, head: seq<Ptr>, shape: seq<Node<V>>, n: nat, Post: seq<nat>)
    requires InsertionShape(shape, [], n, Post)
    requires Inserting(nodes, head, shape, [], n, Post, |shape[n].next|)
    ensures WellLinked(nodes, head, [n] + Post)
  {
    InsertionDone(nodes, head, shape, [], n, Post);
    assert [] + [n] + Post == [n] + Post;
  }

  /** A fresh node appended to a well-linked arena, with its key between `Pre` and `Post`, is ready to be linked. */
  lemma AppendReady<V>(nodes: seq<Node<V>>, head: seq<Ptr>, Pre: seq<nat>, Post: seq<nat>, key: Key, value: V, height: nat)
    requires WellLinked(nodes, head, Pre + Post) && 1 <= height <= Height
    requires Pre != [] ==> Pre[|Pre| - 1] < |nodes| && Less(nodes[Pre[|Pre| - 1]].key, key)
    requires Post != [] ==> Post[0] < |nodes| && Less(key, nodes[Post[0]].key)
    ensures ReadyToLink(nodes + [NewNode(key, value, height)], head, Pre, |nodes|, Post)
  {
    var nodes' := nodes + [NewNode(key, value, height)];
    assert nodes'[..|nodes|] == nodes;
    forall i | 0 <= i < |Pre|
      ensures Pre[i] < |nodes'|
    {
      assert Pre[i] == (Pre + Post)[i];
    }
    forall i | 0 <= i < |Post|
      ensures Post[i] < |nodes'|
    {
      assert Post[i] == (Pre + Post)[|Pre| + i];
    }
  }

  /** A node ready to be linked starts an insertion at level 0. */
  lemma ReadyStartsInsertion<V>(nodes: seq<Node<V>>, head: seq<Ptr>, Pre: seq<nat>, n: nat, Post: seq<nat>)
    requires ReadyToLink(nodes, head, Pre, n, Post)
    ensures InsertionShape(nodes, Pre, n, Post) && Inserting(nodes, head, nodes, Pre, n, Post, 0)
  {
    var live := Pre + Post;
    var prior := nodes[..n];
    assert nodes == prior + [nodes[n]];
    assert live[..|Pre|] == Pre && live[|Pre|..] == Post;
    if Pre != [] {
      assert prior[Pre[|Pre| - 1]] == nodes[Pre[|Pre| - 1]];
    }
    if Post != [] {
      assert live[|Pre|] == Post[0];
      assert prior[Post[0]] == nodes[Post[0]];
    }
    InsertionStart(prior, head, live, |Pre|, nodes[n]);
  }

  /** A fresh node appended to a well-linked arena, with its key between `Pre` and `Post`, starts an insertion at level 0. */
  lemma StartInsertion<V>(prior: seq<Node<V>>, head: seq<Ptr>, Pre: seq<nat>, Post: seq<nat>, key: Key, value: V, height: nat)
    requires WellLinked(prior, head, Pre + Post) && 1 <= height <= Height
    requires Pre != [] ==> Pre[|Pre| - 1] < |prior| && Less(prior[Pre[|Pre| - 1]].key, key)
    requires Post != [] ==> Post[0] < |prior| && Less(key, prior[Post[0]].key)
    ensures var nodes := prior + [NewNode(key, value, height)];
            InsertionShape(nodes, Pre, |prior|, Post) && Inserting(nodes, head, nodes, Pre, |prior|, Post, 0)
  {
    AppendReady(prior, head, Pre, Post, key, value, height);
    ReadyStartsInsertion(prior + [NewNode(key, value, height)], head, Pre, |prior|, Post);
  }

  /** Relinking level `h` alone, with the new node in its place, takes an insertion one level further. */
  lemma InsertingStep<V>(nodes: seq<Node<V>>, F: seq<Node<V>>, head: seq<Ptr>, head': seq<Ptr>, shape: seq<Node<V>>,
                         Pre: seq<nat>, n: nat, Post: seq<nat>, h: nat)
    requires Inserting(nodes, head, shape, Pre, n, Post, h) && h < Height
    requires SameExceptLevel(nodes, F, h) && |head'| == Height
    requires forall g :: 0 <= g < Height && g != h ==> head'[g] == head[g]
    requires LevelLinked(F, head'[h], h, Filter(shape, Pre + [n] + Post, h))
    ensures Inserting(F, head', shape, Pre, n, Post, h + 1)
  {
    LevelsFrame(nodes, F, head, head', shape, Pre + [n] + Post, 0, h, h);
    LevelsFrame(nodes, F, head, head', shape, Pre + Post, h + 1, Height, h);
    SameShapeTrans(shape, nodes, F);
  }

  /**
   * Linking the new node in after `x`, the last node of level `h` before it:
   * the level then links the new chain, the head of the level (a key below
   * the new one) stays, and `x` is the last level-`h` node before `n`.
   */
  lemma SpliceLevel<V>(nodes: seq<Node<V>>, head: seq<Ptr>, shape: seq<Node<V>>,
                       Pre: seq<nat>, n: nat, Post: seq<nat>, h: nat, t: nat)
    requires InsertionShape(shape, Pre, n, Post) && Inserting(nodes, head, shape, Pre, n, Post, h)
    requires h < |shape[n].next| && t < |Filter(shape, Pre, h - 1)|
    requires Tall(shape, Filter(shape, Pre, h - 1)[t], h)
    requires ShortAfter(shape, Filter(shape, Pre, h - 1), t, h)
    ensures var x := Filter(shape, Pre, h - 1)[t];
            && Tall(nodes, x, h) && Tall(nodes, n, h) && x != n
            && (nodes[x].next[h].Some? ==> Tall(nodes, nodes[x].next[h].value, h) && nodes[x].next[h].value != n)
            && Inserting(SpliceAfter(nodes, h, x, n, nodes[x].next[h]), head, shape, Pre, n, Post, h + 1)
            && head[h].Some? && head[h].value < |shape| && Less(shape[head[h].value].key, shape[n].key)
            && LastOf(Filter(shape, Pre, h)) == Some(x)
  {
    var W := Filter(shape, Pre, h - 1);
    var x := W[t];
    var A, B := Filter(shape, Pre, h), Filter(shape, Post, h);
    assert LastOf(A) == Some(x) by {
      LastOfFilter(shape, W, t, h);
      FilterFilter(shape, Pre, h - 1, h);
    }
    var b: Ptr := if B == [] then None else Some(B[0]);
    assert && Tall(nodes, x, h) && Tall(nodes, n, h) && x != n && nodes[x].next[h] == b
           && (b.Some? ==> Tall(nodes, b.value, h) && b.value != n)
           && head[h].Some? && head[h].value < |shape| && Less(shape[head[h].value].key, shape[n].key) by {
      LevelParts(shape, Pre, n, Post, h);
      assert LevelLinked(nodes, head[h], h, A + B);
      LinkAfter(nodes, head[h], h, A, B, n);
      assert A[0] in A;
      assert B != [] ==> B[0] in B;
    }
    var F := SpliceAfter(nodes, h, x, n, b);
    assert LevelLinked(F, head[h], h, Filter(shape, Pre + [n] + Post, h)) && SameExceptLevel(nodes, F, h) by {
      LevelParts(shape, Pre, n, Post, h);
      assert LevelLinked(nodes, head[h], h, A + B);
      LinkAfter(nodes, head[h], h, A, B, n);
    }
    InsertingStep(nodes, F, head, head, shape, Pre, n, Post, h);
  }

  /** With nothing before it on level `h`, the new node goes in front of the filtered `Post`. */
  lemma FrontParts<V>(shape: seq<Node<V>>, Pre: seq<nat>, n: nat, Post: seq<nat>, h: nat)
    requires InsertionShape(shape, Pre, n, Post) && h < |shape[n].next| && Filter(shape, Pre, h) == []
    ensures var B := Filter(shape, Post, h);
            && Filter(shape, Pre + Post, h) == B && Filter(shape, Pre + [n] + Post, h) == [n] + B
            && Distinct(B) && n !in B && (B != [] ==> B[0] < |shape| && Less(shape[n].key, shape[B[0]].key))
  {
    var B := Filter(shape, Post, h);
    LevelParts(shape, Pre, n, Post, h);
    assert Filter(shape, Pre, h) + B == B;
    assert Filter(shape, Pre, h) + [n] + B == [n] + B;
    if B != [] {
      assert B[0] in B;
    }
  }

  /**
   * Putting the new node at the front of level `h`, when no node of that
   * level precedes it: the level's old first node, if any, has a greater key.
   */
  lemma FrontLevel<V>(nodes: seq<Node<V>>, head: seq<Ptr>, shape: seq<Node<V>>,
                      Pre: seq<nat>, n: nat, Post: seq<nat>, h: nat)
    requires InsertionShape(shape, Pre, n, Post) && Inserting(nodes, head, shape, Pre, n, Post, h)
    requires h < |shape[n].next| && Filter(shape, Pre, h) == []
    ensures Tall(nodes, n, h)
    ensures head[h].Some? ==> && Tall(nodes, head[h].value, h) && head[h].value != n
                              && head[h].value < |shape| && Less(shape[n].key, shape[head[h].value].key)
    ensures Inserting(SpliceFront(nodes, h, n, head[h]), head[h := Some(n)], shape, Pre, n, Post, h + 1)
  {
    var B := Filter(shape, Post, h);
    FrontParts(shape, Pre, n, Post, h);
    FrontLinks(nodes, head[h], h, B, n, shape);
    InsertingStep(nodes, SpliceFront(nodes, h, n, head[h]), head, head[h := Some(n)], shape, Pre, n, Post, h);
  }

  /** `LinkFront`, for a node whose key is below that of the level's first node. */
  lemma FrontLinks<V>(nodes: seq<Node<V>>, hd: Ptr, h: nat, B: seq<nat>, n: nat, shape: seq<Node<V>>)
    requires LevelLinked(nodes, hd, h, B) && Distinct(B) && n !in B
    requires Tall(nodes, n, h) && nodes[n].last[h] == None && n < |shape|
    requires B != [] ==> B[0] < |shape| && Less(shape[n].key, shape[B[0]].key)
    ensures hd.Some? ==> && Tall(nodes, hd.value, h) && hd.value != n
                         && hd.value < |shape| && Less(shape[n].key, shape[hd.value].key)
    ensures LevelLinked(SpliceFront(nodes, h, n, hd), Some(n), h, [n] + B)
    ensures SameExceptLevel(nodes, SpliceFront(nodes, h, n, hd), h)
  {
    LinkFront(nodes, hd, h, B, n);
    if hd.Some? {
      assert B[0] in B;
    }
  }

  /** Putting a node in front of an empty level changes nothing but the head. */
  lemma SpliceFrontEmpty<V>(nodes: seq<Node<V>>, h: nat, n: nat)
    requires Tall(nodes, n, h) && nodes[n].next[h] == None
    ensures SpliceFront(nodes, h, n, None) == nodes
  {
    assert nodes[n].next[h := None] == nodes[n].next;
  }

  /**
   * Removal of `live[p]` in progress: the levels below `h` already skip it,
   * the levels from `h` up still link it. `shape` is the arena as it was.
   */
  ghost predicate Removing<V>(nodes: seq<Node<V>>, head: seq<Ptr>, shape: seq<Node<V>>, live: seq<nat>, p: nat, h: nat)
  {
    && |head| == Height && SameShape(shape, nodes) && p < |live|
    && (forall g :: 0 <= g < h && g < Height ==> LevelLinked(nodes, head[g], g, Filter(shape, live[..p] + live[p + 1..], g)))
    && (forall g :: h <= g < Height ==> LevelLinked(nodes, head[g], g, Filter(shape, live, g)))
  }

  /** Relinking level `h` alone, without the removed node, takes a removal one level further. */
  lemma RemovingStep<V>(nodes: seq<Node<V>>, F: seq<Node<V>>, head: seq<Ptr>, head': seq<Ptr>, shape: seq<Node<V>>,
                        live: seq<nat>, p: nat, h: nat)
    requires Removing(nodes, head, shape, live, p, h) && h < Height
    requires SameExceptLevel(nodes, F, h) && |head'| == Height
    requires forall g :: 0 <= g < Height && g != h ==> head'[g] == head[g]
    requires LevelLinked(F, head'[h], h, Filter(shape, live[..p] + live[p + 1..], h))
    ensures Removing(F, head', shape, live, p, h + 1)
  {
    LevelsFrame(nodes, F, head, head', shape, live[..p] + live[p + 1..], 0, h, h);
    LevelsFrame(nodes, F, head, head', shape, live, h + 1, Height, h);
    SameShapeTrans(shape, nodes, F);
  }

  /** The sequence around position `p`. */
  lemma SplitAt(s: seq<nat>, p: nat)
    requires p < |s|
    ensures s == s[..p] + [s[p]] + s[p + 1..]
  {
  }

  /** Unlinking the removed node from level `h`: its neighbours are joined, and a head pointing at it moves on. */
  lemma RemovalStep<V>(nodes: seq<Node<V>>, head: seq<Ptr>, shape: seq<Node<V>>, live: seq<nat>, p: nat, h: nat)
    requires WellFormedArena(shape) && Sorted(shape, live)
    requires Removing(nodes, head, shape, live, p, h) && h < |shape[live[p]].next|
    ensures var x := live[p];
            && x < |nodes| && h < |nodes[x].next| && h < |nodes[x].last|
            && var ln, nn := nodes[x].last[h], nodes[x].next[h];
               && (ln.Some? ==> Tall(nodes, ln.value, h))
               && (nn.Some? ==> Tall(nodes, nn.value, h))
               && Removing(Bypass(nodes, h, ln, nn), if head[h] == Some(x) then head[h := nn] else head,
                           shape, live, p, h + 1)
  {
    var x := live[p];
    var pre, post := live[..p], live[p + 1..];
    var A, B := Filter(shape, pre, h), Filter(shape, post, h);
    assert Filter(shape, live, h) == A + [x] + B && Filter(shape, pre + post, h) == A + B by {
      SplitAt(live, p);
      FilterConcat(shape, pre + [x], post, h);
      FilterConcat(shape, pre, [x], h);
      FilterSingle(shape, x, h);
      FilterConcat(shape, pre, post, h);
    }
    assert Distinct(A + [x] + B) by {
      FilterSorted(shape, live, h);
      SortedDistinct(shape, Filter(shape, live, h));
    }
    assert LevelLinked(nodes, head[h], h, A + [x] + B);
    UnlinkLevel(nodes, head[h], h, A, x, B);
    var ln, nn := nodes[x].last[h], nodes[x].next[h];
    var F := Bypass(nodes, h, ln, nn);
    var head' := if head[h] == Some(x) then head[h := nn] else head;
    RemovingStep(nodes, F, head, head', shape, live, p, h);
  }

  /** A finished removal leaves the structure well linked without `live[p]`. */
  lemma RemovalDone<V>(nodes: seq<Node<V>>, head: seq<Ptr>, shape: seq<Node<V>>, live: seq<nat>, p: nat)
    requires WellFormedArena(shape) && Sorted(shape, live) && p < |live|
    requires Removing(nodes, head, shape, live, p, |shape[live[p]].next|)
    ensures WellLinked(nodes, head, live[..p] + live[p + 1..])
  {
    var live' := live[..p] + live[p + 1..];
    SortedRemove(shape, live, p);
    SameShapeKeepsFilters(shape, nodes, live');
    forall g | 0 <= g < Height
      ensures LevelLinked(nodes, head[g], g, Filter(nodes, live', g))
    {
      RemovalLevel(nodes, head, shape, live, p, g);
    }
  }

  lemma RemovalLevel<V>(nodes: seq<Node<V>>, head: seq<Ptr>, shape: seq<Node<V>>, live: seq<nat>, p: nat, g: nat)
    requires p < |live| && live[p] < |shape| && Removing(nodes, head, shape, live, p, |shape[live[p]].next|) && g < Height
    ensures LevelLinked(nodes, head[g], g, Filter(shape, live[..p] + live[p + 1..], g))
  {
    if g >= |shape[live[p]].next| {
      assert Filter(shape, live[..p] + live[p + 1..], g) == Filter(shape, live, g) by {
        SplitAt(live, p);
        FilterConcat(shape, live[..p] + [live[p]], live[p + 1..], g);
        FilterConcat(shape, live[..p], [live[p]], g);
        FilterConcat(shape, live[..p], live[p + 1..], g);
        FilterSingle(shape, live[p], g);
      }
    }
  }

  /** The first node of an empty structure becomes the whole of level 0. */
  lemma FirstNode<V>(nodes: seq<Node<V>>, head: seq<Ptr>, nd: Node<V>)
    requires WellLinked(nodes, head, [])
    requires |nd.next| == 1 && |nd.last| == 1 && nd.next[0] == None && nd.last[0] == None
    ensures WellLinked(nodes + [nd], head[0 := Some(|nodes|)], [|nodes|])
  {
    var nodes', n := nodes + [nd], |nodes|;
    var head' := head[0 := Some(n)];
    forall h | 0 <= h < Height
      ensures LevelLinked(nodes', head'[h], h, Filter(nodes', [n], h))
    {
      FilterSingle(nodes', n, h);
      assert LevelLinked(nodes, head[h], h, Filter(nodes, [], h));
    }
  }

  /** Replacing a node's value leaves every level linked and the order intact. */
  lemma SetValueKeepsLinks<V>(nodes: seq<Node<V>>, head: seq<Ptr>, live: seq<nat>, x: nat, v: V)
    requires WellLinked(nodes, head, live) && x < |nodes|
    ensures WellLinked(nodes[x := nodes[x].(value := v)], head, live)
  {
    var nodes' := nodes[x := nodes[x].(value := v)];
    forall h | 0 <= h < Height
      ensures LevelLinked(nodes', head[h], h, Filter(nodes', live, h))
    {
      LevelLinkedFrame(nodes, nodes', head[h], h, Filter(nodes, live, h));
      FilterSameHeights(nodes, nodes', live, h);
    }
    assert KeysOf(nodes', live) == KeysOf(nodes, live);
  }
}
