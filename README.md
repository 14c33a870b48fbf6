# MemoryManager: a verified model of a bulk-deallocation registry

`MemoryManager` (memmanager.h) records every heap allocation made through it,
single objects and arrays alike, as a `MemoryBlock`: the address erased to
`void*` together with a deleter bound, at allocation time, to the allocation's
concrete type and form (`delete` for `allocate<T>(args...)`, `delete[]` for
`allocateArray<T>(size)`). `stop()` clears the vector of blocks; destroying a
block runs its deleter once, if its pointer is not null. A manager is meant to
be reused across setup/run/teardown cycles.

The project has three modules:

- `CppHeap` (cpp_heap.dfy) is the C++ free store as the manager sees it.
  `Heap.New` hands out a non-null address that is not live. `Heap.Delete` is
  `delete` / `delete[]`, and it records each call in the log `freed`. Freeing
  an address that is not live, or freeing it with a form or type that does not
  match its allocation, is undefined behaviour in C++. Here both are
  preconditions of `Heap.Delete`, so every call the manager makes is proved to
  be a valid, matching free: no double free and no `delete`/`delete[]` mix-up.
  `CppType` carries an opaque type identity and `std::is_class_v<T>`.
- `MemManager` (memmanager.dfy) holds the registry:
  - `Block` is a `MemoryBlock`.
  - `Snapshot` is the registry together with the free store.
  - `Inv` is the registry invariant. Every entry owns a distinct, non-null,
    live address, and its deleter matches how that address was allocated.
  - `AllocateArrayStep`, `AllocateStep` and the relation `StopStep` specify
    the three operations.
  - The class `MemoryManager` has the vector as the field `memoryBlocks`.
    Its methods change that field and the heap, and are proved against those
    specifications.
  - `stop()` destroys the blocks in an order that `vector::clear` does not
    promise. So `StopStep` fixes the new frees only as a multiset. The method
    happens to destroy the blocks front to back.
- `TestProgram` (test_program.dfy) contains the callers. `RunTestProgram` is
  test.cpp. `SetupRunTeardown` runs any number of setup/teardown cycles over
  any permitted list of allocation requests on one manager.

Both allocation functions return `void`. A size of 0 is accepted, because
`new T[0]` is legal. Allocation is not atomic: see "Left out".

## Model

| member | source | states |
|---|---|---|
| `CppHeap.DeleterFor` | memmanager.h:26-38 | the deleter bound at allocation matches the allocation (same type, `delete[]` exactly for arrays) and is the only deleter that matches it, so an array is never freed with `delete` nor an object with `delete[]` |
| `CppHeap.Heap.New` | memmanager.h:25 | `new` yields a non-null address that is not currently live, now holding the allocation; nothing is freed |
| `CppHeap.Heap.Delete` | memmanager.h:27 | `delete[]` / `delete` may only be applied to a live address with the matching form and type; the address stops being live and the call is logged once |
| `MemManager.Destroy` | memmanager.h:13-15 | destroying one block calls its own deleter on its own address, once, exactly when the address is not null, and calls nothing otherwise |
| `MemManager.Releases` | memmanager.h:13-15 | destroying a run of blocks calls at most one deleter per block; when no pointer is null, the i-th call is the i-th block's deleter on the i-th block's address |
| `MemManager.ReleasesBelongToBlocks` | memmanager.h:13-15 | every call made by destroying a run of blocks is on a non-null address, with the deleter of a block holding that address; every block with a non-null address has its own deleter called on it |
| `MemManager.AllocateArrayStep` | memmanager.h:22-28 | for a non-class `T` and a fresh address: the registry invariant is kept, exactly one entry is appended at the end with the array deleter, earlier entries are unchanged and in order, the held addresses grow by exactly the new one, which is live as an array of `size`, every other live address keeps its allocation, and nothing is freed |
| `MemManager.AllocateStep` | memmanager.h:33-39 | for a class `T` and a fresh address: the same as above with the single-object deleter and a live single object; every other live address keeps its allocation |
| `MemManager.ReleasesExactlyOnce` | memmanager.h:13-15 | for blocks with distinct non-null addresses, destroying them calls each block's own deleter on its own address exactly once and calls nothing else |
| `MemManager.FreesInAnyOrder` | memmanager.h:44 | whatever order `clear` destroys the blocks in, there is one free per block, each block's free happens exactly once, every free belongs to a block, and no address is freed twice |
| `MemManager.StopFreesEachOnce` | memmanager.h:43-44 | after `stop` the registry is empty and valid, every entry it held was freed exactly once with the deleter matching its allocation, nothing else was freed, no address twice, and exactly the held addresses stopped being live |
| `MemManager.StopOnEmpty` | memmanager.h:44 | `stop` on an empty registry frees nothing and changes nothing |
| `MemManager.StopTwice` | memmanager.h:43-44 | two `stop`s in a row: the second is a no-op, and over both calls each held entry's deleter ran exactly once and there is exactly one free per entry |
| `MemManager.MemoryManager.constructor` | memmanager.h:18 | a new manager has an empty registry that satisfies the invariant |
| `MemManager.MemoryManager.AllocateArray` | memmanager.h:22-30 | requires a non-class `T` (the `static_assert`); the new state is `AllocateArrayStep` of the old with the fresh address `new T[size]` returned; the invariant is kept |
| `MemManager.MemoryManager.Allocate` | memmanager.h:33-41 | requires a class `T`; the new state is `AllocateStep` of the old with the fresh address `new T(...)` returned; the invariant is kept |
| `MemManager.MemoryManager.Stop` | memmanager.h:43-46 | the old and new states are related by `StopStep`: registry empty, the held addresses no longer live, and the new frees are a permutation of the blocks' destructions; the invariant is kept |
| `TestProgram.RunTestProgram` | test.cpp:3-11 | after the two arrays, the object and `stop`, the registry holds zero entries, the three addresses are distinct, and the free log is exactly one `delete[]` of the `int` array, one `delete[]` of the `double` array and one `delete` of the `MyClass` object |
| `TestProgram.Cycle` | test.cpp:4-8 | one setup phase of permitted requests, then `stop`: the requests receive distinct non-null addresses, the new frees are, up to order, exactly one free per request of its own address with the deleter that request calls for, and nothing is left live |
| `TestProgram.SetupRunTeardown` | test.cpp:4-8 | any number of allocate-then-`stop` cycles on one manager: in every round the requests receive distinct addresses and each is freed exactly once with the deleter its request calls for, and nothing else; the whole free log is the rounds' frees in turn, of length rounds times requests; nothing is left live, so the manager is reusable after `stop` exactly like a fresh one |

## Left out

- Console output: the `std::cout` messages and `typeid(T).name()` carry no contract.
- `MyClass` is an example payload that only prints. It appears only as a class type in `RunTestProgram`.
- Constructor arguments and perfect forwarding in `allocate<T>(args...)` are not modelled. Constructors are opaque, and an object is just its type.
- Template instantiation and the `void*` casts are not modelled. A type is an opaque identity plus `is_class`, and an address is a natural number.
- Exceptions are not modelled: `std::bad_alloc`, a throwing constructor, and `make_unique`/`emplace_back` throwing after `new`, which would leak the raw pointer. Every allocation succeeds, and nothing atomic is claimed.
- The implicit destructor of `MemoryManager` is not a separate member, because Dafny has no destructors. Destroying the `memoryBlocks` member destroys every block just as `clear` does, so its effect is that of `MemoryManager.Stop`.
- Release order is not modelled: `vector::clear` promises none, so `StopStep` states the frees as a multiset.
- `size_t` width is not modelled: `size` is unbounded, and the `new T[size]` length overflow (`std::bad_array_new_length`) is out of scope.
- Address reuse by the real allocator is not modelled. `Heap.New` promises only a non-null address that is not live, although its body never reuses an address.
- Thread safety is not modelled: there is no locking, and the model is sequential.
