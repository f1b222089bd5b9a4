/**
 * Equality that treats `undefined` and `null` as values of their own and compares
 * present values by their serialisation. The serialiser (JSON.stringify in the
 * library) is a parameter: nothing is assumed about it.
 */
module AllFieldCollectable {
  import opened Wrappers

  /** The equality of `AllFieldCollectable.equals`. */
  function Equals<T>(stringify: T -> string, o1: JsValue<T>, o2: JsValue<T>): (r: bool)
    ensures o1.Undefined? ==> (r <==> o2.Undefined?)
    ensures o1.Null? ==> (r <==> o2.Null?)
    ensures o1.Present? && !o2.Present? ==> !r
    ensures o1.Present? && o2.Present? ==> (r <==> stringify(o1.value) == stringify(o2.value))
  {
    if o1.Undefined? then
      o2.Undefined?
    else if o1.Null? then
      o2.Null?
    else if o2.Null? || o2.Undefined? then
      false
    else
      stringify(o1.value) == stringify(o2.value)
  }

  /** Two absent values are equal exactly when they are the same kind of absent value. */
  lemma AbsentValuesAreDistinct<T>(stringify: T -> string, o1: JsValue<T>, o2: JsValue<T>)
    requires !o1.Present? || !o2.Present?
    ensures Equals(stringify, o1, o2) <==> o1 == o2
  {
  }

  /** `Equals` is an equivalence relation whatever the serialiser is. */
  lemma EqualsIsEquivalence<T>(stringify: T -> string, a: JsValue<T>, b: JsValue<T>, c: JsValue<T>)
    ensures Equals(stringify, a, a)
    ensures Equals(stringify, a, b) == Equals(stringify, b, a)
    ensures Equals(stringify, a, b) && Equals(stringify, b, c) ==> Equals(stringify, a, c)
  {
  }

  /** With an injective serialiser, `Equals` is plain equality of values. */
  lemma InjectiveSerialiserGivesIdentity<T>(stringify: T -> string, o1: JsValue<T>, o2: JsValue<T>)
    requires forall x, y :: stringify(x) == stringify(y) ==> x == y
    ensures Equals(stringify, o1, o2) <==> o1 == o2
  {
  }
}
