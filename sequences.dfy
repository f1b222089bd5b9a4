/**
 * Reference definitions of the list searches and edits that the list classes
 * implement with loops and pointer rewiring.
 */
module Sequences {

  /** A traversal that has visited `s[..c]` and visits `s[c]` next has visited `s[..c + 1]`. */
  lemma VisitNext<T>(s: seq<T>, c: nat)
    requires c < |s|
    ensures s[..c + 1] == s[..c] + [s[c]]
  {
    assert s[..c + 1][c] == s[c];
  }

  /** The index of the first element equal to `t`, or -1 when there is none. */
  function FirstIndex<T(==)>(s: seq<T>, t: T): (r: int)
    ensures -1 <= r < |s|
    ensures r == -1 <==> t !in s
    ensures r >= 0 ==> s[r] == t && t !in s[..r]
  {
    if s == [] then -1
    else if s[0] == t then 0
    else
      var k := FirstIndex(s[1..], t);
      assert s[1..][..if k < 0 then 0 else k] == s[1..if k < 0 then 1 else k + 1];
      if k == -1 then -1 else k + 1
  }

  /** The index of the last element equal to `t`, or -1 when there is none. */
  function LastIndex<T(==)>(s: seq<T>, t: T): (r: int)
    ensures -1 <= r < |s|
    ensures r == -1 <==> t !in s
    ensures r >= 0 ==> s[r] == t && t !in s[r + 1..]
  {
    if s == [] then -1
    else if s[|s| - 1] == t then |s| - 1
    else
      var init := s[..|s| - 1];
      var k := LastIndex(init, t);
      assert s == init + [s[|s| - 1]];
      assert k >= 0 ==> s[k + 1..] == init[k + 1..] + [s[|s| - 1]];
      k
  }

  /** The last position holding `t` is the one after which no element equals `t`. */
  lemma LastIndexAt<T>(s: seq<T>, t: T, o: int)
    requires -1 <= o < |s| && (o >= 0 ==> s[o] == t)
    requires forall j :: o < j < |s| ==> s[j] != t
    ensures LastIndex(s, t) == o
  {
    var r := LastIndex(s, t);
    forall k | r < k < |s|
      ensures s[k] != t
    {
      assert s[k] == s[r + 1..][k - r - 1];
    }
  }

  /** `s` without its first element equal to `t`; `s` itself when there is none. */
  function RemoveFirst<T(==)>(s: seq<T>, t: T): (r: seq<T>)
    ensures t !in s ==> r == s
    ensures t in s ==> |r| == |s| - 1
  {
    if s == [] then []
    else if s[0] == t then s[1..]
    else [s[0]] + RemoveFirst(s[1..], t)
  }

  /** Removing the first occurrence of `t` cuts `s` at `FirstIndex(s, t)`. */
  lemma {:induction false} RemoveFirstAt<T>(s: seq<T>, t: T)
    requires t in s
    ensures RemoveFirst(s, t) == s[..FirstIndex(s, t)] + s[FirstIndex(s, t) + 1..]
  {
    if s[0] != t {
      assert t in s[1..];
      RemoveFirstAt(s[1..], t);
      var k := FirstIndex(s[1..], t);
      assert [s[0]] + (s[1..][..k] + s[1..][k + 1..]) == s[..k + 1] + s[k + 2..];
    }
  }

  /** Removing the first occurrence takes exactly one copy of `t` out of the multiset. */
  lemma {:induction false} RemoveFirstMultiset<T>(s: seq<T>, t: T)
    ensures t in s ==> multiset(RemoveFirst(s, t)) == multiset(s) - multiset{t}
    ensures t !in s ==> multiset(RemoveFirst(s, t)) == multiset(s)
  {
    if t in s {
      var i := FirstIndex(s, t);
      RemoveFirstAt(s, t);
      assert s == s[..i] + [t] + s[i + 1..];
      calc {
        multiset(s);
        multiset(s[..i]) + multiset{t} + multiset(s[i + 1..]);
      }
    }
  }

  /** Positions `i` and `j` of `s` hold different elements. */
  ghost predicate Apart<T>(s: seq<T>, i: int, j: int)
  {
    0 <= i < |s| && 0 <= j < |s| && s[i] != s[j]
  }

  /**
   * No element occurs twice in `s`. The fact for two positions is drawn out
   * through `Apart`, which keeps the solver from pairing up every two positions.
   */
  ghost predicate Distinct<T>(s: seq<T>)
  {
    forall i, j :: 0 <= i < j < |s| ==> Apart(s, i, j)
  }

  /** Two different positions of a sequence without repeats hold different elements. */
  lemma DistinctAt<T>(s: seq<T>, i: nat, j: nat)
    requires Distinct(s) && i < |s| && j < |s| && i != j
    ensures s[i] != s[j]
  {
    if i < j {
      assert Apart(s, i, j);
    } else {
      assert Apart(s, j, i);
    }
  }

  /** An element not yet in `s`, put in at position `k`, keeps the sequence without repeats. */
  lemma DistinctInsert<T>(s: seq<T>, k: nat, n: T)
    requires Distinct(s) && k <= |s| && n !in s
    ensures Distinct(s[..k] + [n] + s[k..])
  {
    var m := s[..k] + [n] + s[k..];
    forall i, j | 0 <= i < j < |m|
      ensures Apart(m, i, j)
    {
      var i', j' := if i < k then i else i - 1, if j < k then j else j - 1;
      if i == k {
        assert m[j] == s[j'];
      } else if j == k {
        assert m[i] == s[i'];
      } else {
        assert m[i] == s[i'] && m[j] == s[j'] && Apart(s, i', j');
      }
    }
  }

  /** An element not yet in `s`, added at the end, keeps the sequence without repeats. */
  lemma DistinctAppend<T>(s: seq<T>, n: T)
    requires Distinct(s) && n !in s
    ensures Distinct(s + [n])
  {
    DistinctInsert(s, |s|, n);
    assert s[..|s|] + [n] + s[|s|..] == s + [n];
  }

  /** Dropping position `k` keeps the sequence without repeats, and the dropped element no longer occurs. */
  lemma DistinctRemove<T>(s: seq<T>, k: nat)
    requires Distinct(s) && k < |s|
    ensures Distinct(s[..k] + s[k + 1..]) && s[k] !in s[..k] + s[k + 1..]
  {
    var m := s[..k] + s[k + 1..];
    forall i {:trigger m[i]} | 0 <= i < |m|
      ensures m[i] == (if i < k then s[i] else s[i + 1]) && m[i] != s[k]
    {
      DistinctAt(s, if i < k then i else i + 1, k);
    }
    forall i, j | 0 <= i < j < |m|
      ensures Apart(m, i, j)
    {
      DistinctAt(s, if i < k then i else i + 1, if j < k then j else j + 1);
    }
  }

  /** Dropping the first element keeps the sequence without repeats. */
  lemma DistinctTail<T>(s: seq<T>)
    requires Distinct(s) && 0 < |s|
    ensures Distinct(s[1..])
  {
    forall i, j | 0 <= i < j < |s| - 1
      ensures Apart(s[1..], i, j)
    {
      assert Apart(s, i + 1, j + 1);
    }
  }

  /** Dropping the last element keeps the sequence without repeats. */
  lemma DistinctInit<T>(s: seq<T>)
    requires Distinct(s) && 0 < |s|
    ensures Distinct(s[..|s| - 1])
  {
    var P := s[..|s| - 1];
    forall i, j | 0 <= i < j < |P|
      ensures Apart(P, i, j)
    {
      assert Apart(s, i, j);
    }
  }
}
