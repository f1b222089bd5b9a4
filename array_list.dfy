/**
 * The growable array of src/ArrayList.ts. The backing JavaScript array is the
 * sequence field `elements`, changed in place by push/splice; `sizeValue` is the
 * separately maintained count. Element equality (the elements' own `equals`)
 * is Dafny equality.
 */
module ArrayLists {
  import opened Wrappers
  import Sequences

  /**
   * Where `splice(index, ...)` starts on an array of length `len`: a negative
   * index counts back from the end (clamped at 0), one past the end is clamped
   * to `len`.
   */
  function SpliceStart(index: int, len: nat): (s: nat)
    ensures s <= len
    ensures 0 <= index <= len ==> s == index
    ensures index < 0 && 0 <= len + index ==> s == len + index
    ensures index + len < 0 ==> s == 0
    ensures len < index ==> s == len
  {
    if index < 0 then (if len + index < 0 then 0 else len + index)
    else if index <= len then index else len
  }

  class ArrayList<T(==)> {
    var elements: seq<T>
    var sizeValue: int

    /** The count always agrees with the backing array. */
    ghost predicate Valid()
      reads this
    {
      sizeValue == |elements|
    }

    constructor ()
      ensures Valid() && elements == []
    {
      elements := [];
      sizeValue := 0;
    }

    /** Appends `t`; always reports a change. */
    method Add(t: T) returns (changed: bool)
      requires Valid()
      modifies this
      ensures Valid()
      ensures elements == old(elements) + [t]
      ensures changed
    {
      elements := elements + [t];
      sizeValue := sizeValue + 1;
      changed := true;
    }

    /**
     * Inserts `t` at `index`, shifting the rest right. Like `splice`, a
     * negative index counts back from the end and an index past the end appends.
     */
    method AddElement(index: int, t: T)
      requires Valid()
      modifies this
      ensures Valid()
      ensures var i := SpliceStart(index, |old(elements)|);
              elements == old(elements)[..i] + [t] + old(elements)[i..]
    {
      var i := SpliceStart(index, |elements|);
      elements := elements[..i] + [t] + elements[i..];
      sizeValue := sizeValue + 1;
    }

    /**
     * Reads the element at `index` (None, JavaScript's `undefined`, outside the
     * array), then `splice`s out one element at `index`, a negative index
     * counting back from the end, and always decrements the count. So past the
     * end nothing is removed and the count falls below the array's length,
     * while a negative index removes an element but returns None.
     */
    method Remove(index: int) returns (element: Option<T>)
      modifies this
      ensures element == old(Get(index))
      ensures sizeValue == old(sizeValue) - 1
      ensures var i := SpliceStart(index, |old(elements)|);
              elements == if i < |old(elements)| then old(elements)[..i] + old(elements)[i + 1..] else old(elements)
      ensures old(Valid()) ==> (Valid() <==> SpliceStart(index, |old(elements)|) < |old(elements)|)
      ensures old(Valid()) && 0 <= index < old(sizeValue) ==>
                && Valid() && element == Some(old(elements)[index])
                && elements == old(elements)[..index] + old(elements)[index + 1..]
    {
      element := Get(index);
      var i := SpliceStart(index, |elements|);
      if i < |elements| {
        elements := elements[..i] + elements[i + 1..];
      }
      sizeValue := sizeValue - 1;
    }

    /** Empties the list. */
    method Clear()
      modifies this
      ensures Valid() && elements == []
    {
      elements := [];
      sizeValue := 0;
    }

    /** The element at `index`, or None (JavaScript's `undefined`) outside the array. */
    function Get(index: int): (r: Option<T>)
      reads this
      ensures r.Some? <==> 0 <= index < |elements|
      ensures r.Some? ==> r.value == elements[index]
    {
      if 0 <= index < |elements| then Some(elements[index]) else None
    }

    /** Replaces the element at `index` and returns the one that was there. */
    method Set(index: int, element: T) returns (previous: T)
      requires Valid()
      requires 0 <= index < |elements|
      modifies this
      ensures Valid()
      ensures previous == old(elements)[index]
      ensures elements == old(elements)[index := element]
    {
      previous := elements[index];
      elements := elements[index := element];
    }

    /** The least index holding an element equal to `t`, or -1. */
    method IndexOf(t: T) returns (r: int)
      requires Valid()
      ensures r == Sequences.FirstIndex(elements, t)
    {
      if sizeValue <= 0 {
        return -1;
      }
      var loop := 0;
      while loop < sizeValue
        invariant 0 <= loop <= sizeValue
        invariant t !in elements[..loop]
      {
        if elements[loop] == t {
          return loop;
        }
        loop := loop + 1;
      }
      assert elements[..loop] == elements;
      return -1;
    }

    /** True exactly when some element equals `t`. */
    method Contains(t: T) returns (b: bool)
      requires Valid()
      ensures b <==> t in elements
    {
      var i := IndexOf(t);
      b := i != -1;
    }

    /**
     * Removes the first element equal to `t`; reports whether there was one.
     * Without one the list is unchanged.
     */
    method RemoveElement(t: T) returns (removed: bool)
      requires Valid()
      modifies this
      ensures Valid()
      ensures removed <==> t in old(elements)
      ensures elements == Sequences.RemoveFirst(old(elements), t)
    {
      var offset := IndexOf(t);
      if offset == -1 {
        return false;
      }
      var _ := Remove(offset);
      Sequences.RemoveFirstAt(old(elements), t);
      return true;
    }

    /** True exactly when the list holds no element. */
    function IsEmpty(): (b: bool)
      reads this
      requires Valid()
      ensures b <==> elements == []
    {
      sizeValue == 0
    }

    /** The number of elements. */
    function Size(): (n: int)
      reads this
      requires Valid()
      ensures n == |elements|
    {
      sizeValue
    }
  }

  /** The Java-style iterator: `HasNext` and `Next` over an offset. */
  class ArrayListJIterator<T(==)> {
    var offset: int
    const arraylist: ArrayList<T>
    /** The elements returned so far. */
    ghost var Yielded: seq<T>

    ghost predicate Valid()
      reads this, arraylist
    {
      arraylist.Valid() && 0 <= offset && Yielded == arraylist.elements[..if offset <= |arraylist.elements| then offset else |arraylist.elements|]
    }

    constructor (list: ArrayList<T>)
      requires list.Valid()
      ensures Valid() && arraylist == list && offset == 0 && Yielded == []
    {
      arraylist := list;
      offset := 0;
      Yielded := [];
    }

    method HasNext() returns (b: bool)
      requires Valid()
      ensures b <==> |Yielded| < |arraylist.elements|
    {
      b := offset < arraylist.Size();
    }

    /** Returns the next element, or None (undefined) once past the end. */
    method Next() returns (r: Option<T>)
      requires Valid()
      modifies this
      ensures Valid()
      ensures old(|Yielded| < |arraylist.elements|) ==>
                r == Some(arraylist.elements[old(|Yielded|)]) && Yielded == old(Yielded) + [r.value]
      ensures old(|Yielded| >= |arraylist.elements|) ==> r == None && Yielded == old(Yielded)
    {
      r := arraylist.Get(offset);
      offset := offset + 1;
      if r.Some? {
        Yielded := Yielded + [r.value];
      }
    }
  }

  /** The TypeScript-protocol iterator: `next` yields `{done, value}` records. */
  class ArrayListIterator<T(==)> {
    var offset: int
    const arraylist: ArrayList<T>
    ghost var Yielded: seq<T>

    ghost predicate Valid()
      reads this, arraylist
    {
      arraylist.Valid() && 0 <= offset <= |arraylist.elements| && Yielded == arraylist.elements[..offset]
    }

    constructor (list: ArrayList<T>)
      requires list.Valid()
      ensures Valid() && arraylist == list && Yielded == []
    {
      arraylist := list;
      offset := 0;
      Yielded := [];
    }

    method Next() returns (r: IteratorResult<T>)
      requires Valid()
      modifies this
      ensures Valid()
      ensures old(|Yielded| < |arraylist.elements|) ==>
                r == IteratorResult(false, Some(arraylist.elements[old(|Yielded|)]))
                && Yielded == old(Yielded) + [r.value.value]
      ensures old(|Yielded| == |arraylist.elements|) ==> r == IteratorResult(true, None) && Yielded == old(Yielded)
    {
      if offset < arraylist.Size() {
        r := IteratorResult(false, arraylist.Get(offset));
        offset := offset + 1;
        Yielded := Yielded + [r.value.value];
      } else {
        r := IteratorResult(true, None);
      }
    }
  }
}
