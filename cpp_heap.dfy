// The C++ free store as the memory manager sees it: `new T[size]` and
// `new T(args...)` hand out fresh addresses, `delete` and `delete[]` give them
// back.  Freeing an address that is not live, or freeing it with the form that
// does not match how it was allocated, is undefined behaviour in C++; here it
// is a precondition of `Heap.Delete`, so every caller is proved not to do it.
module CppHeap {

  /** An address; 0 plays the role of the null pointer. */
  type Handle = nat

  const Null: Handle := 0

  /** A C++ type, identified opaquely, together with `std::is_class_v<T>`. */
  datatype CppType = CppType(id: nat, isClass: bool)

  /** What a live address holds: one object (`new T(...)`) or an array (`new T[count]`). */
  datatype Allocation = SingleObject(t: CppType) | ArrayOf(t: CppType, count: nat)

  /** A deleter bound to a type: `delete static_cast<T*>(p)` or `delete[] static_cast<T*>(p)`. */
  datatype Deleter = DeleteObject(t: CppType) | DeleteArray(t: CppType)

  /** One call of a deleter on one address, as recorded by the free store. */
  datatype Release = Release(ptr: Handle, deleter: Deleter)

  /** The deleter is the right one for the allocation: same form, same type. */
  predicate Matches(a: Allocation, d: Deleter)
  {
    match a
    case SingleObject(t) => d == DeleteObject(t)
    case ArrayOf(t, _) => d == DeleteArray(t)
  }

  /**
   * The deleter that the allocation's lambda binds.  What it means: it is bound
   * to the allocated type and is `delete[]` exactly for arrays.  Since `Matches`
   * is defined by the same two cases, the last two clauses only confirm that it
   * is the one and only matching deleter.
   */
  function DeleterFor(a: Allocation): (d: Deleter)
    ensures d.t == a.t && (d.DeleteArray? <==> a.ArrayOf?)
    ensures Matches(a, d)
    ensures forall d' :: Matches(a, d') ==> d' == d
  {
    match a
    case SingleObject(t) => DeleteObject(t)
    case ArrayOf(t, _) => DeleteArray(t)
  }

  class Heap {
    var live: map<Handle, Allocation>
    var freed: seq<Release>
    var top: Handle

    ghost predicate Valid()
      reads this
    {
      forall p :: p in live ==> Null < p <= top
    }

    constructor ()
      ensures Valid() && live == map[] && freed == []
    {
      live, freed, top := map[], [], Null;
    }

    /** `new`: some non-null address that is not live, now holding `a`. */
    method New(a: Allocation) returns (p: Handle)
      requires Valid()
      modifies this
      ensures Valid()
      ensures p != Null && p !in old(live)
      ensures live == old(live)[p := a] && freed == old(freed)
    {
      top := top + 1;
      p := top;
      live := live[p := a];
    }

    /** `delete` / `delete[]`: only on a live address, only with the matching form. */
    method Delete(p: Handle, d: Deleter)
      requires Valid()
      requires p in live && Matches(live[p], d)
      modifies this
      ensures Valid()
      ensures live == old(live) - {p} && freed == old(freed) + [Release(p, d)]
    {
      live := live - {p};
      freed := freed + [Release(p, d)];
    }
  }
}
