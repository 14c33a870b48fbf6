// Callers of the memory manager: the program of test.cpp, and the
// setup/run/teardown cycle the manager is meant for.
module TestProgram {
  import opened CppHeap
  import opened MemManager

  const Int := CppType(0, false)
  const Double := CppType(1, false)
  const MyClass := CppType(2, true)

  /**
   * test.cpp: an `int[100]`, a `double[200]` and one `MyClass`, then `stop`.
   * Afterwards the registry is empty and the three addresses were freed once
   * each, the arrays with `delete[]` and the object with `delete`.
   */
  method RunTestProgram() returns (ints: Handle, doubles: Handle, obj: Handle, freed: seq<Release>, entries: nat)
    ensures entries == 0
    ensures ints != doubles && doubles != obj && ints != obj
    ensures multiset(freed) ==
      multiset{Release(ints, DeleteArray(Int)), Release(doubles, DeleteArray(Double)), Release(obj, DeleteObject(MyClass))}
  {
    var heap := new Heap();
    var manager := new MemoryManager(heap);
    ghost var p0 := manager.AllocateArray(Int, 100);
    ghost var p1 := manager.AllocateArray(Double, 200);
    ghost var p2 := manager.Allocate(MyClass);
    ints, doubles, obj := manager.memoryBlocks[0].ptr, manager.memoryBlocks[1].ptr, manager.memoryBlocks[2].ptr;
    ghost var held := manager.memoryBlocks;
    assert held == [Block(ints, DeleteArray(Int)), Block(doubles, DeleteArray(Double)), Block(obj, DeleteObject(MyClass))];
    assert Tracked(heap.live, held[0]) && Tracked(heap.live, held[1]) && Tracked(heap.live, held[2]);
    assert Releases(held) ==
      [Release(ints, DeleteArray(Int)), Release(doubles, DeleteArray(Double)), Release(obj, DeleteObject(MyClass))];
    ghost var before := manager.View();
    manager.Stop();
    assert NewFrees(before, manager.View()) == heap.freed;
    freed := heap.freed;
    entries := |manager.memoryBlocks|;
  }

  /** One allocation call of a setup phase. */
  datatype Request = ArrayRequest(t: CppType, size: nat) | ObjectRequest(t: CppType)

  /** The compile-time split: arrays of non-class types, single objects of class types. */
  predicate Permitted(q: Request)
  {
    match q
    case ArrayRequest(t, _) => !t.isClass
    case ObjectRequest(t) => t.isClass
  }

  function RequestedDeleter(q: Request): Deleter
  {
    match q
    case ArrayRequest(t, n) => DeleterFor(ArrayOf(t, n))
    case ObjectRequest(t) => DeleterFor(SingleObject(t))
  }

  /** One allocation call: `allocateArray<T>(size)` or `allocate<T>()`. */
  method Perform(manager: MemoryManager, q: Request)
    requires manager.Valid() && Permitted(q)
    modifies manager, manager.heap
    ensures manager.Valid()
    ensures |manager.memoryBlocks| == |old(manager.memoryBlocks)| + 1
    ensures manager.memoryBlocks[..|old(manager.memoryBlocks)|] == old(manager.memoryBlocks)
    ensures manager.memoryBlocks[|old(manager.memoryBlocks)|].deleter == RequestedDeleter(q)
    ensures manager.heap.live.Keys == old(manager.heap.live.Keys) + {manager.memoryBlocks[|old(manager.memoryBlocks)|].ptr}
    ensures Held(manager.memoryBlocks) == Held(old(manager.memoryBlocks)) + {manager.memoryBlocks[|old(manager.memoryBlocks)|].ptr}
    ensures manager.heap.freed == old(manager.heap.freed)
  {
    match q {
      case ArrayRequest(t, n) =>
        ghost var p := manager.AllocateArray(t, n);
      case ObjectRequest(t) =>
        ghost var p := manager.Allocate(t);
    }
  }

  /** A setup phase: every request, in order, against an empty manager over a heap it alone uses. */
  method Setup(manager: MemoryManager, requests: seq<Request>)
    requires manager.Valid() && manager.memoryBlocks == [] && manager.heap.live == map[]
    requires forall q :: q in requests ==> Permitted(q)
    modifies manager, manager.heap
    ensures manager.Valid()
    ensures |manager.memoryBlocks| == |requests|
    ensures forall i :: 0 <= i < |requests| ==> manager.memoryBlocks[i].deleter == RequestedDeleter(requests[i])
    ensures manager.heap.live.Keys == Held(manager.memoryBlocks)
    ensures manager.heap.freed == old(manager.heap.freed)
  {
    var k := 0;
    while k < |requests|
      invariant 0 <= k <= |requests|
      invariant manager.Valid()
      invariant |manager.memoryBlocks| == k
      invariant forall i :: 0 <= i < k ==> manager.memoryBlocks[i].deleter == RequestedDeleter(requests[i])
      invariant manager.heap.live.Keys == Held(manager.memoryBlocks)
      invariant manager.heap.freed == old(manager.heap.freed)
    {
      assert requests[k] in requests;
      Perform(manager, requests[k]);
      k := k + 1;
    }
  }

  /** What one cycle should free: each request's address, once, with the deleter the request calls for. */
  function Expected(handles: seq<Handle>, requests: seq<Request>): seq<Release>
    requires |handles| == |requests|
  {
    seq(|requests|, i requires 0 <= i < |requests| => Release(handles[i], RequestedDeleter(requests[i])))
  }

  predicate DistinctHandles(hs: seq<Handle>)
  {
    forall i, j :: 0 <= i < j < |hs| ==> hs[i] != hs[j]
  }

  /** The free logs of successive cycles, one after another. */
  function Concat(logs: seq<seq<Release>>): seq<Release>
  {
    if logs == [] then [] else Concat(logs[..|logs| - 1]) + logs[|logs| - 1]
  }

  /**
   * One setup/teardown cycle: every request, then `stop`.  `handles` are the
   * addresses the requests received, `frees` what `stop` freed.
   */
  method Cycle(manager: MemoryManager, requests: seq<Request>) returns (handles: seq<Handle>, frees: seq<Release>)
    requires manager.Valid() && manager.memoryBlocks == [] && manager.heap.live == map[]
    requires forall q :: q in requests ==> Permitted(q)
    modifies manager, manager.heap
    ensures manager.Valid() && manager.memoryBlocks == [] && manager.heap.live == map[]
    ensures manager.heap.freed == old(manager.heap.freed) + frees
    ensures |handles| == |requests| && DistinctHandles(handles)
    ensures forall i :: 0 <= i < |handles| ==> handles[i] != Null
    ensures multiset(frees) == multiset(Expected(handles, requests))
  {
    Setup(manager, requests);
    var bs := manager.memoryBlocks;
    handles := seq(|bs|, i requires 0 <= i < |bs| => bs[i].ptr);
    var mark := |manager.heap.freed|;
    ghost var before := manager.View();
    assert forall i :: 0 <= i < |bs| ==> Tracked(before.live, bs[i]);
    assert Releases(bs) == Expected(handles, requests);
    manager.Stop();
    frees := manager.heap.freed[mark..];
    assert manager.heap.freed == before.freed + frees;
    assert manager.heap.live == map[];
  }

  /**
   * `rounds` cycles of one manager, each allocating every request and ending
   * with `stop`.  In every round each request's address is freed exactly once,
   * with the deleter that request calls for, and no address twice; the whole
   * free log is the rounds' frees in turn; nothing is left live, so the
   * manager is reusable after `stop`.
   */
  method SetupRunTeardown(requests: seq<Request>, rounds: nat)
    returns (handles: seq<seq<Handle>>, frees: seq<seq<Release>>, log: seq<Release>, live: map<Handle, Allocation>)
    requires forall q :: q in requests ==> Permitted(q)
    ensures |handles| == rounds && |frees| == rounds
    ensures forall k :: 0 <= k < rounds ==>
              |handles[k]| == |requests| && DistinctHandles(handles[k]) &&
              multiset(frees[k]) == multiset(Expected(handles[k], requests))
    ensures log == Concat(frees)
    ensures |log| == rounds * |requests|
    ensures live == map[]
  {
    var heap := new Heap();
    var manager := new MemoryManager(heap);
    handles, frees := [], [];
    var round := 0;
    while round < rounds
      invariant 0 <= round <= rounds
      invariant manager.heap == heap && manager.Valid() && manager.memoryBlocks == []
      invariant heap.live == map[]
      invariant |handles| == round && |frees| == round
      invariant forall k :: 0 <= k < round ==>
                  |handles[k]| == |requests| && DistinctHandles(handles[k]) &&
                  multiset(frees[k]) == multiset(Expected(handles[k], requests))
      invariant heap.freed == Concat(frees)
      invariant |heap.freed| == round * |requests|
    {
      var hs, fs := Cycle(manager, requests);
      assert |multiset(fs)| == |fs| && |multiset(Expected(hs, requests))| == |requests|;
      assert (frees + [fs])[..round] == frees;
      handles, frees := handles + [hs], frees + [fs];
      assert (round + 1) * |requests| == round * |requests| + |requests|;
      round := round + 1;
    }
    log, live := heap.freed, heap.live;
  }
}
