/** The two components of the dummy service: a string dictionary and a counter. */
module Dummy {
  import opened Wrappers
  import opened Numbers
  import opened Algo

  /** `dummy::components::DummyDict`. */
  class DummyDict {
    var dict: map<string, string>

    constructor ()
      ensures dict == map[]
    {
      dict := map[];
    }

    /** `Reset`: removes every entry. */
    method Reset()
      modifies this
      ensures dict == map[]
    {
      dict := map[];
    }

    /** `Add`: stores the value under the key, replacing an earlier one; other keys keep
        their values. */
    method Add(key: string, value: string)
      modifies this
      ensures dict == old(dict)[key := value]
      ensures Get(key) == Some(value)
      ensures forall k :: k != key ==> Get(k) == old(Get(k))
    {
      dict := dict[key := value];
    }

    /** `Get`: the value stored under the key, or none. */
    function Get(key: string): (r: Option<string>)
      reads this
      ensures r.Some? <==> key in dict
      ensures r.Some? ==> r.value == dict[key]
    {
      GetOptional(dict, key)
    }
  }

  /** `dummy::components::DummyCounter`, a `size_t` that wraps modulo 2^64. */
  class DummyCounter {
    var counter: nat

    ghost predicate Valid()
      reads this
    {
      counter < TWO_TO_THE_64
    }

    constructor ()
      ensures Valid() && counter == 0
    {
      counter := 0;
    }

    /** `Reset`: back to zero, so the next `AddOne` returns 1. */
    method Reset()
      modifies this
      ensures Valid() && counter == 0
    {
      counter := 0;
    }

    /** `GetValue`: the current value, nothing changed. */
    function GetValue(): (r: nat)
      requires Valid()
      reads this
      ensures r < TWO_TO_THE_64
    {
      counter
    }

    /** `AddOne`: pre-increments and returns the new value. */
    method AddOne() returns (r: nat)
      requires Valid()
      modifies this
      ensures Valid() && r == counter
      ensures counter == (old(counter) + 1) % TWO_TO_THE_64
    {
      counter := (counter + 1) % TWO_TO_THE_64;
      r := counter;
    }
  }

  /** A fresh or reset counter answers 1, 2, ..., n to n calls of `AddOne`. */
  method AddOneCounts(c: DummyCounter, n: nat) returns (answers: seq<nat>)
    requires c.Valid() && c.counter == 0 && n < TWO_TO_THE_64
    modifies c
    ensures c.Valid() && c.counter == n
    ensures |answers| == n && forall i :: 0 <= i < n ==> answers[i] == i + 1
  {
    answers := [];
    while |answers| < n
      invariant c.Valid() && c.counter == |answers| <= n
      invariant forall i :: 0 <= i < |answers| ==> answers[i] == i + 1
    {
      var v := c.AddOne();
      answers := answers + [v];
    }
  }
}
