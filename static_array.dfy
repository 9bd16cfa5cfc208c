// A fixed-size array of `n` elements (static_array/static_array.hpp).
//
// The C++ class keeps its elements in a member `T _store[n]`; here that is a
// Dafny array allocated once by each constructor. `n` is a template parameter
// in the source, so it is fixed for the lifetime of the object and every
// comparison is between arrays of the same `n`.
module StaticArray {

  /** What `at` produces: the element, or the `std::out_of_range` it throws. */
  datatype Result<T> = Ok(value: T) | OutOfRange

  class StaticArray<T(0)> {
    const n: nat
    const store: array<T>

    ghost predicate Valid()
      reads this
    {
      store.Length == n && n > 0
    }

    /** The elements in index order. */
    ghost function Contents(): seq<T>
      reads this, store
    {
      store[..]
    }

    /** Default constructor: `T _store[n]` with default-initialised elements,
        whose values the model leaves unspecified. A zero-length `T _store[0]`
        is ill-formed C++, so `n > 0`. */
    constructor (n: nat)
      requires n > 0
      ensures Valid() && this.n == n && fresh(store)
    {
      this.n := n;
      store := new T[n];
    }

    /** `static_array(value_type const &all)`: every slot holds `all`. */
    constructor Filled(n: nat, all: T)
      requires n > 0
      ensures Valid() && this.n == n && fresh(store)
      ensures forall i :: 0 <= i < n ==> store[i] == all
    {
      this.n := n;
      store := new T[n];
      new;
      Fill(all);
    }

    /** `static_array(R const &rng)` and the initializer-list constructor:
        value-initialise the store (`_store{}`, every slot `T{}`, passed in
        here as `zero` since a generic `T` has no such value in Dafny), then
        copy the first `min(n, |rng|)` elements of the range. Slots past a
        shorter range keep `T{}`. */
    constructor FromRange(n: nat, rng: seq<T>, zero: T)
      requires n > 0
      ensures Valid() && this.n == n && fresh(store)
      ensures forall i :: 0 <= i < n ==> store[i] == if i < |rng| then rng[i] else zero
    {
      this.n := n;
      store := new T[n](_ => zero);
      new;
      Init(rng);
    }

    /** `fill(with)`: `std::fill_n(begin(), n, with)`. */
    method Fill(with: T)
      requires Valid()
      modifies store
      ensures forall i :: 0 <= i < n ==> store[i] == with
    {
      var i := 0;
      while i < n
        invariant 0 <= i <= n
        invariant forall k :: 0 <= k < i ==> store[k] == with
      {
        store[i] := with;
        i := i + 1;
      }
    }

    /** `init(rng)`, the body of `assign` and of the range constructors: walk
        the store and the range together, stopping at the end of either.
        Slots past the end of a shorter range keep their old values. */
    method Init(rng: seq<T>)
      requires Valid()
      modifies store
      ensures forall i :: 0 <= i < n ==>
        store[i] == if i < |rng| then rng[i] else old(store[i])
    {
      var me := 0;
      var rit := 0;
      while me != n && rit != |rng|
        invariant me == rit && me <= n && rit <= |rng|
        invariant forall k :: 0 <= k < me ==> store[k] == rng[k]
        invariant forall k :: me <= k < n ==> store[k] == old(store[k])
      {
        store[me] := rng[rit];
        me, rit := me + 1, rit + 1;
      }
    }

    /** `assign(r)`: the same as `init(r)`. */
    method Assign(r: seq<T>)
      requires Valid()
      modifies store
      ensures forall i :: 0 <= i < n ==>
        store[i] == if i < |r| then r[i] else old(store[i])
    {
      Init(r);
    }

    /** `operator[](i) const`: the element in slot `i` (unchecked; the caller
        keeps `i < n`). */
    function Get(i: nat): (v: T)
      requires Valid() && i < n
      reads this, store
      ensures v == Contents()[i]
    {
      store[i]
    }

    /** Writing through the reference returned by the non-const `operator[]`:
        slot `i` becomes `v`, no other slot changes. */
    method Set(i: nat, v: T)
      requires Valid() && i < n
      modifies store
      ensures store[..] == old(store[..])[i := v]
    {
      store[i] := v;
    }

    /** Non-const `at(i)`: bounds-checked access that throws
        `std::out_of_range` when `i >= n`. */
    method At(i: nat) returns (r: Result<T>)
      requires Valid()
      ensures r.Ok? <==> i < n
      ensures r.Ok? ==> r.value == Contents()[i]
    {
      if i >= n {
        return OutOfRange;
      }
      return Ok(store[i]);
    }

    /** `front()`: the element in the first slot. */
    function Front(): (v: T)
      requires Valid()
      reads this, store
      ensures v == Contents()[0]
    {
      store[0]
    }

    /** `back()`: the element in slot `n - 1`, the last one. */
    function Back(): (v: T)
      requires Valid()
      reads this, store
      ensures v == Contents()[|Contents()| - 1]
    {
      store[n - 1]
    }

    /** `size()`: the element count, which is the template parameter. */
    function Size(): (r: nat)
      requires Valid()
      reads this, store
      ensures r == |Contents()|
    {
      n
    }

    /** `is_empty()`: a `static_array` always holds `n > 0` elements. */
    function IsEmpty(): (b: bool)
      requires Valid()
      reads this, store
      ensures b <==> |Contents()| == 0
    {
      false
    }
  }

  /** `operator==`: `std::equal` over the two stores, element by element. */
  function Equal<T(0, ==)>(l: StaticArray<T>, r: StaticArray<T>): (b: bool)
    requires l.Valid() && r.Valid() && l.n == r.n
    reads l, l.store, r, r.store
    ensures b <==> l.Contents() == r.Contents()
  {
    forall i | 0 <= i < l.n :: l.store[i] == r.store[i]
  }

  /** `operator!=`: the negation of `r == l` (note the swapped operands). */
  function NotEqual<T(0, ==)>(l: StaticArray<T>, r: StaticArray<T>): (b: bool)
    requires l.Valid() && r.Valid() && l.n == r.n
    reads l, l.store, r, r.store
    ensures b <==> l.Contents() != r.Contents()
  {
    !Equal(r, l)
  }
}
