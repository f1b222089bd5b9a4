/**
 * Keys of the navigable map and set, and the reference definitions of the
 * navigation queries on a sequence of keys.
 *
 * The map is parameterised by a comparator; the model fixes the library's
 * number comparator, under which undefined sorts below null and null below
 * every number, and which answers exactly -1, 0 or 1.
 */
module Keys {
  import opened Wrappers

  type Key = JsValue<int>

  /** The number comparator: -1, 0 or 1 as `a` sorts before, with or after `b`. */
  function Compare(a: Key, b: Key): (r: int)
    ensures r == 0 <==> a == b
    ensures r == -1 || r == 0 || r == 1
  {
    match (a, b)
    case (Undefined, Undefined) => 0
    case (Undefined, _) => -1
    case (_, Undefined) => 1
    case (Null, Null) => 0
    case (Null, _) => -1
    case (_, Null) => 1
    case (Present(x), Present(y)) => if x < y then -1 else if x > y then 1 else 0
  }

  /** `a` sorts strictly before `b`. */
  predicate Less(a: Key, b: Key)
  {
    Compare(a, b) == -1
  }

  /** Undefined first, then null, then the numbers in their usual order. */
  lemma CompareOrdersAbsentFirst(x: int, y: int)
    ensures Compare(Undefined, Null) == -1 && Compare(Null, Undefined) == 1
    ensures Compare(Null, Present(x)) == -1 && Compare(Present(x), Null) == 1
    ensures Compare(Undefined, Present(x)) == -1 && Compare(Present(x), Undefined) == 1
    ensures Compare(Present(x), Present(y)) == -1 <==> x < y
  {
  }

  /** The comparator is antisymmetric and `Less` is a strict total order. */
  lemma CompareIsTotalOrder(a: Key, b: Key, c: Key)
    ensures Compare(a, b) == -Compare(b, a)
    ensures !Less(a, a)
    ensures Less(a, b) && Less(b, c) ==> Less(a, c)
    ensures a == b || Less(a, b) || Less(b, a)
  {
  }

  /** Strictly increasing keys. */
  ghost predicate StrictlySorted(ks: seq<Key>)
  {
    forall i, j :: 0 <= i < j < |ks| ==> Less(ks[i], ks[j])
  }

  /** A key strictly between its neighbours keeps the keys strictly increasing. */
  lemma InsertKeepsSorted(ks: seq<Key>, c: nat, k: Key)
    requires StrictlySorted(ks) && c <= |ks|
    requires c > 0 ==> Less(ks[c - 1], k)
    requires c < |ks| ==> Less(k, ks[c])
    ensures StrictlySorted(ks[..c] + [k] + ks[c..])
  {
    var ks' := ks[..c] + [k] + ks[c..];
    forall i, j | 0 <= i < j < |ks'|
      ensures Less(ks'[i], ks'[j])
    {
      if j == c {
        if i < c - 1 {
          CompareIsTotalOrder(ks[i], ks[c - 1], k);
        }
      } else if i == c {
        if j - 1 > c {
          CompareIsTotalOrder(k, ks[c], ks[j - 1]);
        }
      } else {
        var i', j' := if i < c then i else i - 1, if j < c then j else j - 1;
        assert ks'[i] == ks[i'] && ks'[j] == ks[j'];
      }
    }
  }

  /** The last position whose key is at most `k`, or -1. */
  function FloorIndex(ks: seq<Key>, k: Key): (r: int)
    ensures -1 <= r < |ks|
    ensures r >= 0 ==> !Less(k, ks[r])
    ensures forall j :: r < j < |ks| ==> Less(k, ks[j])
  {
    if ks == [] then -1
    else if !Less(k, ks[|ks| - 1]) then |ks| - 1
    else FloorIndex(ks[..|ks| - 1], k)
  }

  /** The last position whose key is below `k`, or -1. */
  function LowerIndex(ks: seq<Key>, k: Key): (r: int)
    ensures -1 <= r < |ks|
    ensures r >= 0 ==> Less(ks[r], k)
    ensures forall j :: r < j < |ks| ==> !Less(ks[j], k)
  {
    if ks == [] then -1
    else if Less(ks[|ks| - 1], k) then |ks| - 1
    else LowerIndex(ks[..|ks| - 1], k)
  }

  /** The first position whose key is at least `k`, or `|ks|`. */
  function CeilingIndex(ks: seq<Key>, k: Key): (r: int)
    ensures 0 <= r <= |ks|
    ensures r < |ks| ==> !Less(ks[r], k)
    ensures forall j :: 0 <= j < r ==> Less(ks[j], k)
  {
    if ks == [] then 0
    else if !Less(ks[0], k) then 0
    else 1 + CeilingIndex(ks[1..], k)
  }

  /** The first position whose key is above `k`, or `|ks|`. */
  function HigherIndex(ks: seq<Key>, k: Key): (r: int)
    ensures 0 <= r <= |ks|
    ensures r < |ks| ==> Less(k, ks[r])
    ensures forall j :: 0 <= j < r ==> !Less(k, ks[j])
  {
    if ks == [] then 0
    else if Less(k, ks[0]) then 0
    else 1 + HigherIndex(ks[1..], k)
  }

  /** On sorted keys every key up to the floor is at most `k`, and the floor is the greatest such key. */
  lemma FloorIsGreatestAtMost(ks: seq<Key>, k: Key)
    requires StrictlySorted(ks)
    ensures forall j :: 0 <= j <= FloorIndex(ks, k) ==> !Less(k, ks[j])
    ensures forall j :: 0 <= j < |ks| && !Less(k, ks[j]) ==> j <= FloorIndex(ks, k)
  {
    var r := FloorIndex(ks, k);
    forall j | 0 <= j < r
      ensures !Less(k, ks[j])
    {
      CompareIsTotalOrder(k, ks[j], ks[r]);
    }
  }

  /** The ceiling follows the floor: it is the floor itself when the floor equals `k`, else the next position. */
  lemma CeilingFromFloor(ks: seq<Key>, k: Key)
    requires StrictlySorted(ks)
    ensures var f := FloorIndex(ks, k);
            CeilingIndex(ks, k) == if f >= 0 && ks[f] == k then f else f + 1
  {
    var f, c := FloorIndex(ks, k), CeilingIndex(ks, k);
    if !(f >= 0 && ks[f] == k) {
      if c <= f {
        CompareIsTotalOrder(ks[c], k, ks[f]);
        if c < f {
          CompareIsTotalOrder(k, ks[c], ks[f]);
        }
      }
    }
  }

  /** The first key above `k` sits just after the floor. */
  lemma HigherFromFloor(ks: seq<Key>, k: Key)
    requires StrictlySorted(ks)
    ensures HigherIndex(ks, k) == FloorIndex(ks, k) + 1
  {
    var f, h := FloorIndex(ks, k), HigherIndex(ks, k);
    if h <= f {
      CompareIsTotalOrder(k, ks[h], ks[f]);
    }
  }

  /** On sorted keys a key occurs at most at one position: its floor. */
  lemma FoundAtFloor(ks: seq<Key>, k: Key)
    requires StrictlySorted(ks)
    ensures k in ks <==> FloorIndex(ks, k) >= 0 && ks[FloorIndex(ks, k)] == k
  {
    if k in ks {
      var j :| 0 <= j < |ks| && ks[j] == k;
      var f := FloorIndex(ks, k);
      CompareIsTotalOrder(k, k, k);
      assert f == j;
    }
  }

  /** The floor is pinned down by its neighbourhood: at most `k` there, above `k` just after. */
  lemma FloorAt(ks: seq<Key>, k: Key, p: int)
    requires StrictlySorted(ks) && -1 <= p < |ks|
    requires p >= 0 ==> !Less(k, ks[p])
    requires p + 1 < |ks| ==> Less(k, ks[p + 1])
    ensures FloorIndex(ks, k) == p
  {
    var f := FloorIndex(ks, k);
    if f > p + 1 {
      CompareIsTotalOrder(k, ks[p + 1], ks[f]);
    }
  }

  /** The lower position is pinned down by its neighbourhood: below `k` there, not below just after. */
  lemma LowerAt(ks: seq<Key>, k: Key, p: int)
    requires StrictlySorted(ks) && -1 <= p < |ks|
    requires p >= 0 ==> Less(ks[p], k)
    requires p + 1 < |ks| ==> !Less(ks[p + 1], k)
    ensures LowerIndex(ks, k) == p
  {
    var l := LowerIndex(ks, k);
    if l > p + 1 {
      CompareIsTotalOrder(ks[p + 1], ks[l], k);
    }
  }

  // ----- What each navigation query answers -----

  /** The key at position `i` of `ks`, or none when `i` is out of range. */
  function KeyAt(ks: seq<Key>, i: int): (r: Option<Key>)
    ensures r.Some? <==> 0 <= i < |ks|
    ensures r.Some? ==> r.value == ks[i]
  {
    if 0 <= i < |ks| then Some(ks[i]) else None
  }

  /** `r` is the greatest key of `ks` at most `k`; none when every key is above `k`. */
  ghost predicate IsFloor(ks: seq<Key>, k: Key, r: Option<Key>)
  {
    match r
    case None => forall j :: 0 <= j < |ks| ==> Less(k, ks[j])
    case Some(x) => x in ks && !Less(k, x) && forall j :: 0 <= j < |ks| && !Less(k, ks[j]) ==> !Less(x, ks[j])
  }

  /** `r` is the greatest key of `ks` below `k`; none when no key is below `k`. */
  ghost predicate IsLower(ks: seq<Key>, k: Key, r: Option<Key>)
  {
    match r
    case None => forall j :: 0 <= j < |ks| ==> !Less(ks[j], k)
    case Some(x) => x in ks && Less(x, k) && forall j :: 0 <= j < |ks| && Less(ks[j], k) ==> !Less(x, ks[j])
  }

  /** `r` is the least key of `ks` at least `k`; none when every key is below `k`. */
  ghost predicate IsCeiling(ks: seq<Key>, k: Key, r: Option<Key>)
  {
    match r
    case None => forall j :: 0 <= j < |ks| ==> Less(ks[j], k)
    case Some(x) => x in ks && !Less(x, k) && forall j :: 0 <= j < |ks| && !Less(ks[j], k) ==> !Less(ks[j], x)
  }

  /** `r` is the least key of `ks` above `k`; none when no key is above `k`. */
  ghost predicate IsHigher(ks: seq<Key>, k: Key, r: Option<Key>)
  {
    match r
    case None => forall j :: 0 <= j < |ks| ==> !Less(k, ks[j])
    case Some(x) => x in ks && Less(k, x) && forall j :: 0 <= j < |ks| && Less(k, ks[j]) ==> !Less(ks[j], x)
  }

  /** `r` is the least key of `ks`; none when `ks` is empty. */
  ghost predicate IsLeast(ks: seq<Key>, r: Option<Key>)
  {
    match r
    case None => |ks| == 0
    case Some(x) => x in ks && forall j :: 0 <= j < |ks| ==> !Less(ks[j], x)
  }

  /** `r` is the greatest key of `ks`; none when `ks` is empty. */
  ghost predicate IsGreatest(ks: seq<Key>, r: Option<Key>)
  {
    match r
    case None => |ks| == 0
    case Some(x) => x in ks && forall j :: 0 <= j < |ks| ==> !Less(x, ks[j])
  }

  /** On sorted keys the floor position holds the floor key. */
  lemma FloorIndexIsFloor(ks: seq<Key>, k: Key)
    requires StrictlySorted(ks)
    ensures IsFloor(ks, k, KeyAt(ks, FloorIndex(ks, k)))
  {
    FloorIsGreatestAtMost(ks, k);
    var f := FloorIndex(ks, k);
    forall j | 0 <= j < |ks| && !Less(k, ks[j]) && f >= 0
      ensures !Less(ks[f], ks[j])
    {
      if j < f {
        CompareIsTotalOrder(ks[j], ks[f], ks[j]);
      } else {
        CompareIsTotalOrder(ks[f], ks[f], ks[f]);
      }
    }
  }

  /** On sorted keys the lower position holds the lower key. */
  lemma LowerIndexIsLower(ks: seq<Key>, k: Key)
    requires StrictlySorted(ks)
    ensures IsLower(ks, k, KeyAt(ks, LowerIndex(ks, k)))
  {
    var l := LowerIndex(ks, k);
    forall j | 0 <= j < |ks| && (l < 0 || Less(ks[j], k))
      ensures l >= 0 ==> !Less(ks[l], ks[j])
      ensures l < 0 ==> !Less(ks[j], k)
    {
      if l >= 0 && j <= l {
        CompareIsTotalOrder(ks[j], ks[l], ks[j]);
      }
    }
  }

  /** On sorted keys the ceiling position holds the ceiling key. */
  lemma CeilingIndexIsCeiling(ks: seq<Key>, k: Key)
    requires StrictlySorted(ks)
    ensures IsCeiling(ks, k, KeyAt(ks, CeilingIndex(ks, k)))
  {
    var c := CeilingIndex(ks, k);
    forall j | 0 <= j < |ks| && (c == |ks| || !Less(ks[j], k))
      ensures c < |ks| ==> !Less(ks[j], ks[c])
      ensures c == |ks| ==> Less(ks[j], k)
    {
      if c < |ks| && c <= j {
        CompareIsTotalOrder(ks[c], ks[j], ks[c]);
      }
    }
  }

  /** On sorted keys the higher position holds the higher key. */
  lemma HigherIndexIsHigher(ks: seq<Key>, k: Key)
    requires StrictlySorted(ks)
    ensures IsHigher(ks, k, KeyAt(ks, HigherIndex(ks, k)))
  {
    var h := HigherIndex(ks, k);
    forall j | 0 <= j < |ks| && (h == |ks| || Less(k, ks[j]))
      ensures h < |ks| ==> !Less(ks[j], ks[h])
      ensures h == |ks| ==> !Less(k, ks[j])
    {
      if h < |ks| && h <= j {
        CompareIsTotalOrder(ks[h], ks[j], ks[h]);
      }
    }
  }

  /** On sorted keys the first key is the least and the last the greatest. */
  lemma EndsAreExtremes(ks: seq<Key>)
    requires StrictlySorted(ks)
    ensures IsLeast(ks, KeyAt(ks, 0)) && IsGreatest(ks, KeyAt(ks, |ks| - 1))
  {
    forall j | 0 <= j < |ks|
      ensures !Less(ks[j], ks[0]) && !Less(ks[|ks| - 1], ks[j])
    {
      CompareIsTotalOrder(ks[j], ks[0], ks[j]);
      CompareIsTotalOrder(ks[|ks| - 1], ks[j], ks[|ks| - 1]);
    }
  }

  /** Each of the answers is unique: two answers to the same query agree. */
  lemma AnswersAreUnique(ks: seq<Key>, k: Key, r1: Option<Key>, r2: Option<Key>)
    ensures IsFloor(ks, k, r1) && IsFloor(ks, k, r2) ==> r1 == r2
    ensures IsLower(ks, k, r1) && IsLower(ks, k, r2) ==> r1 == r2
    ensures IsCeiling(ks, k, r1) && IsCeiling(ks, k, r2) ==> r1 == r2
    ensures IsHigher(ks, k, r1) && IsHigher(ks, k, r2) ==> r1 == r2
    ensures IsLeast(ks, r1) && IsLeast(ks, r2) ==> r1 == r2
    ensures IsGreatest(ks, r1) && IsGreatest(ks, r2) ==> r1 == r2
  {
    if r1.Some? && r2.Some? {
      CompareIsTotalOrder(r1.value, r2.value, r1.value);
    }
  }

  /** The keys 100, 200, ..., 1000. */
  function Hundreds(): (ks: seq<Key>)
    ensures |ks| == 10 && forall i :: 0 <= i < 10 ==> ks[i] == Present(100 * (i + 1))
  {
    seq(10, i => Present(100 * (i + 1)))
  }

  /**
   * With 100, 200, ..., 1000 stored: the floor of 456 is 400, its ceiling
   * 500, 1 has no floor and 99999 no ceiling.
   */
  lemma NavigationExamples(r: Option<Key>)
    ensures IsFloor(Hundreds(), Present(456), r) <==> r == Some(Present(400))
    ensures IsCeiling(Hundreds(), Present(456), r) <==> r == Some(Present(500))
    ensures IsFloor(Hundreds(), Present(1), r) <==> r == None
    ensures IsCeiling(Hundreds(), Present(99999), r) <==> r == None
  {
    var ks := Hundreds();
    assert ks[3] == Present(400) && ks[4] == Present(500);
    assert IsFloor(ks, Present(456), Some(Present(400)));
    assert IsCeiling(ks, Present(456), Some(Present(500)));
    assert IsFloor(ks, Present(1), None);
    assert IsCeiling(ks, Present(99999), None);
    AnswersAreUnique(ks, Present(456), r, Some(Present(400)));
    AnswersAreUnique(ks, Present(456), r, Some(Present(500)));
    AnswersAreUnique(ks, Present(1), r, None);
    AnswersAreUnique(ks, Present(99999), r, None);
  }
}
