/** `StrongTypedef<T, Tag>`: a mutable box around one value of the underlying type, so that
    ids and payloads are distinct types while behaving as their underlying value. */
module StrongTypedefs {

  class StrongTypedef<T(==)> {
    var value: T

    /** Default construction: the wrapped value is what `T()` produces, passed in as
        `init` because Dafny has no generic default value. */
    constructor Default(init: T)
      ensures value == init && GetUnderlying() == init
    {
      value := init;
    }

    /** Construction from a value, by copy or by move. */
    constructor (v: T)
      ensures value == v && GetUnderlying() == v
    {
      value := v;
    }

    /** Copy construction. */
    constructor Copy(other: StrongTypedef<T>)
      ensures value == other.value
      ensures other.value == old(other.value)
      ensures Equals(other) && other.Equals(this)
    {
      value := other.value;
    }

    /** Move construction swaps with a freshly initialised value (`init`; indeterminate for
        scalar types), so the moved-from wrapper ends up holding that value. */
    constructor Move(other: StrongTypedef<T>, init: T)
      modifies other
      ensures value == old(other.value)
      ensures other.value == init
      ensures GetUnderlying() == old(other.GetUnderlying())
    {
      value := other.value;
      new;
      other.value := init;
    }

    /** `operator=(const T&)` and `operator=(T&&)`: replace the wrapped value. */
    method Assign(v: T)
      modifies this
      ensures value == v && GetUnderlying() == v
    {
      value := v;
    }

    /** Copy assignment. */
    method CopyAssign(other: StrongTypedef<T>)
      modifies this
      ensures value == old(other.value)
      ensures other != this ==> other.value == old(other.value)
      ensures Equals(other)
    {
      value := other.value;
    }

    /** Move assignment swaps the two wrapped values. */
    method MoveAssign(other: StrongTypedef<T>)
      modifies this, other
      ensures value == old(other.value)
      ensures other.value == old(value)
    {
      value, other.value := other.value, value;
    }

    /** `operator==`: equal exactly when the underlying values are equal. */
    function Equals(other: StrongTypedef<T>): (b: bool)
      reads this, other
      ensures b <==> value == other.value
    {
      value == other.value
    }

    function GetUnderlying(): (v: T)
      reads this
      ensures v == value
    {
      value
    }
  }

  /** `operator==` is an equivalence: it compares the underlying values, so it is reflexive,
      symmetric and transitive, and equal wrappers give the same underlying value. */
  lemma EqualsEquivalence<T>(a: StrongTypedef<T>, b: StrongTypedef<T>, c: StrongTypedef<T>)
    ensures a.Equals(a)
    ensures a.Equals(b) ==> b.Equals(a)
    ensures a.Equals(b) && b.Equals(c) ==> a.Equals(c)
    ensures a.Equals(b) <==> a.GetUnderlying() == b.GetUnderlying()
  {
  }
}
