// The allocation registry of memmanager.h: a vector of memory blocks, each an
// address paired with the deleter bound when it was allocated, released all at
// once by `stop`.
module MemManager {
  import opened CppHeap

  /** A `MemoryBlock`: the erased pointer and the deleter that knows its type. */
  datatype Block = Block(ptr: Handle, deleter: Deleter)

  /** The registry together with the free store it allocates from. */
  datatype Snapshot = Snapshot(blocks: seq<Block>, live: map<Handle, Allocation>, freed: seq<Release>)

  /** The block owns a live address and its deleter is the right one for it. */
  predicate Tracked(live: map<Handle, Allocation>, b: Block)
  {
    b.ptr != Null && b.ptr in live && Matches(live[b.ptr], b.deleter)
  }

  /** No address is registered twice. */
  predicate DistinctPtrs(bs: seq<Block>)
  {
    forall i, j :: 0 <= i < j < |bs| ==> bs[i].ptr != bs[j].ptr
  }

  /** The registry invariant: every entry owns a distinct live address with the right deleter. */
  predicate Inv(s: Snapshot)
  {
    (forall i :: 0 <= i < |s.blocks| ==> Tracked(s.live, s.blocks[i])) && DistinctPtrs(s.blocks)
  }

  /** The non-null addresses the blocks hold. */
  function Held(bs: seq<Block>): set<Handle>
  {
    set b | b in bs && b.ptr != Null :: b.ptr
  }

  /** `~MemoryBlock`: run the deleter once, and only on a non-null pointer. */
  function Destroy(b: Block): (r: seq<Release>)
    ensures |r| <= 1
    ensures r != [] <==> b.ptr != Null
    ensures forall x :: x in r ==> x == Release(b.ptr, b.deleter)
  {
    if b.ptr != Null then [Release(b.ptr, b.deleter)] else []
  }

  /** The deleter calls made by destroying the blocks, one block after another. */
  function Releases(bs: seq<Block>): (r: seq<Release>)
    ensures |r| <= |bs|
    ensures (forall i :: 0 <= i < |bs| ==> bs[i].ptr != Null) ==>
              |r| == |bs| && forall i :: 0 <= i < |bs| ==> r[i] == Release(bs[i].ptr, bs[i].deleter)
  {
    if bs == [] then [] else Releases(bs[..|bs| - 1]) + Destroy(bs[|bs| - 1])
  }

  /**
   * Destroying blocks frees only non-null addresses, each with a block's own
   * deleter on that block's own address, and frees every non-null block.
   */
  lemma {:induction false} ReleasesBelongToBlocks(bs: seq<Block>)
    ensures forall x :: x in Releases(bs) ==> x.ptr != Null && Block(x.ptr, x.deleter) in bs
    ensures forall i :: 0 <= i < |bs| && bs[i].ptr != Null ==> Release(bs[i].ptr, bs[i].deleter) in Releases(bs)
  {
    if bs != [] {
      var init, last := bs[..|bs| - 1], bs[|bs| - 1];
      ReleasesBelongToBlocks(init);
      assert bs == init + [last];
      forall i | 0 <= i < |bs| - 1
        ensures bs[i] == init[i]
      {
      }
    }
  }

  /** `allocateArray<T>(size)`: one array entry appended, bound to `delete[]`. */
  function AllocateArrayStep(s: Snapshot, t: CppType, size: nat, p: Handle): (r: Snapshot)
    requires Inv(s)
    requires !t.isClass
    requires p != Null && p !in s.live
    ensures Inv(r)
    ensures |r.blocks| == |s.blocks| + 1 && r.blocks[..|s.blocks|] == s.blocks
    ensures r.blocks[|s.blocks|].ptr == p && r.blocks[|s.blocks|].deleter.DeleteArray?
    ensures Held(r.blocks) == Held(s.blocks) + {p}
    ensures r.live.Keys == s.live.Keys + {p} && r.live[p] == ArrayOf(t, size)
    ensures forall q :: q in s.live ==> q in r.live && r.live[q] == s.live[q]
    ensures r.freed == s.freed
  {
    var a := ArrayOf(t, size);
    var r := Snapshot(s.blocks + [Block(p, DeleterFor(a))], s.live[p := a], s.freed);
    assert forall b :: b in r.blocks ==> b in s.blocks || b == Block(p, DeleterFor(a));
    r
  }

  /** `allocate<T>(args...)`: one object entry appended, bound to `delete`. */
  function AllocateStep(s: Snapshot, t: CppType, p: Handle): (r: Snapshot)
    requires Inv(s)
    requires t.isClass
    requires p != Null && p !in s.live
    ensures Inv(r)
    ensures |r.blocks| == |s.blocks| + 1 && r.blocks[..|s.blocks|] == s.blocks
    ensures r.blocks[|s.blocks|].ptr == p && r.blocks[|s.blocks|].deleter.DeleteObject?
    ensures Held(r.blocks) == Held(s.blocks) + {p}
    ensures r.live.Keys == s.live.Keys + {p} && r.live[p] == SingleObject(t)
    ensures forall q :: q in s.live ==> q in r.live && r.live[q] == s.live[q]
    ensures r.freed == s.freed
  {
    var a := SingleObject(t);
    var r := Snapshot(s.blocks + [Block(p, DeleterFor(a))], s.live[p := a], s.freed);
    assert forall b :: b in r.blocks ==> b in s.blocks || b == Block(p, DeleterFor(a));
    r
  }

  /** The frees that happened between two snapshots. */
  function NewFrees(s: Snapshot, r: Snapshot): seq<Release>
    requires |s.freed| <= |r.freed|
  {
    r.freed[|s.freed|..]
  }

  /**
   * `stop()`: the vector is cleared.  Every block is destroyed, in an order
   * `vector::clear` does not promise, so only the multiset of the new frees is
   * fixed; the registry ends up empty.
   */
  ghost predicate StopStep(s: Snapshot, r: Snapshot)
  {
    && r.blocks == []
    && r.live == s.live - Held(s.blocks)
    && |s.freed| <= |r.freed| && r.freed[..|s.freed|] == s.freed
    && multiset(NewFrees(s, r)) == multiset(Releases(s.blocks))
  }

  /** An element at two positions occurs at least twice in the multiset. */
  lemma TwoOccurrences(xs: seq<Release>, i: nat, j: nat)
    requires i < j < |xs| && xs[i] == xs[j]
    ensures multiset(xs)[xs[i]] >= 2
  {
    assert xs == xs[..j] + xs[j..];
    assert xs[i] in xs[..j];
    assert xs[j] in xs[j..];
  }

  /** Destroying distinct, non-null blocks calls each block's own deleter exactly once. */
  lemma {:induction false} ReleasesExactlyOnce(bs: seq<Block>)
    requires forall i :: 0 <= i < |bs| ==> bs[i].ptr != Null
    requires DistinctPtrs(bs)
    ensures forall b :: b in bs ==> multiset(Releases(bs))[Release(b.ptr, b.deleter)] == 1
    ensures forall x :: x in Releases(bs) ==> Block(x.ptr, x.deleter) in bs
  {
    if bs != [] {
      var init, last := bs[..|bs| - 1], bs[|bs| - 1];
      ReleasesExactlyOnce(init);
      assert bs == init + [last];
      assert Releases(bs) == Releases(init) + [Release(last.ptr, last.deleter)];
      forall b | b in bs
        ensures multiset(Releases(bs))[Release(b.ptr, b.deleter)] == 1
      {
        if b != last {
          var k :| 0 <= k < |bs| && bs[k] == b;
          assert k < |bs| - 1 && b in init;
          assert bs[k].ptr != bs[|bs| - 1].ptr;
        }
      }
    }
  }

  /**
   * Any order of the frees of distinct, non-null blocks calls each block's own
   * deleter exactly once, calls no other, and never frees one address twice.
   */
  lemma {:induction false} FreesInAnyOrder(bs: seq<Block>, nf: seq<Release>)
    requires forall i :: 0 <= i < |bs| ==> bs[i].ptr != Null
    requires DistinctPtrs(bs)
    requires multiset(nf) == multiset(Releases(bs))
    ensures |nf| == |bs|
    ensures forall b :: b in bs ==> multiset(nf)[Release(b.ptr, b.deleter)] == 1
    ensures forall x :: x in nf ==> Block(x.ptr, x.deleter) in bs
    ensures forall i, j :: 0 <= i < j < |nf| ==> nf[i].ptr != nf[j].ptr
  {
    ReleasesExactlyOnce(bs);
    assert |multiset(nf)| == |nf|;
    forall x | x in nf
      ensures Block(x.ptr, x.deleter) in bs
    {
      assert x in multiset(Releases(bs));
    }
    forall i, j | 0 <= i < j < |nf|
      ensures nf[i].ptr != nf[j].ptr
    {
      assert nf[i] in nf && nf[j] in nf;
      if nf[i] == nf[j] {
        TwoOccurrences(nf, i, j);
      }
    }
  }

  /**
   * After `stop` the registry is empty and the deleter of every block it held
   * has run exactly once, on that block's address, with the deleter matching
   * how the address was allocated; nothing else was freed and no address was
   * freed twice.
   */
  lemma StopFreesEachOnce(s: Snapshot, r: Snapshot)
    requires Inv(s) && StopStep(s, r)
    ensures Inv(r) && r.blocks == []
    ensures |NewFrees(s, r)| == |s.blocks|
    ensures forall b :: b in s.blocks ==> multiset(NewFrees(s, r))[Release(b.ptr, b.deleter)] == 1
    ensures forall x :: x in NewFrees(s, r) ==>
              Block(x.ptr, x.deleter) in s.blocks && x.ptr in s.live && Matches(s.live[x.ptr], x.deleter)
    ensures forall i, j :: 0 <= i < j < |NewFrees(s, r)| ==> NewFrees(s, r)[i].ptr != NewFrees(s, r)[j].ptr
    ensures r.live.Keys == s.live.Keys - Held(s.blocks)
  {
    var nf := NewFrees(s, r);
    FreesInAnyOrder(s.blocks, nf);
    forall x | x in nf
      ensures x.ptr in s.live && Matches(s.live[x.ptr], x.deleter)
    {
      var k :| 0 <= k < |s.blocks| && s.blocks[k] == Block(x.ptr, x.deleter);
      assert Tracked(s.live, s.blocks[k]);
    }
  }

  /** `stop` on an empty registry frees nothing and changes nothing. */
  lemma StopOnEmpty(s: Snapshot, r: Snapshot)
    requires s.blocks == [] && StopStep(s, r)
    ensures r == s
  {
  }

  /**
   * Calling `stop` twice frees every entry once in total: the second call is a
   * no-op, and over both calls each held entry's deleter ran exactly once.
   */
  lemma StopTwice(s: Snapshot, r1: Snapshot, r2: Snapshot)
    requires Inv(s) && StopStep(s, r1) && StopStep(r1, r2)
    ensures r2 == r1
    ensures |s.freed| <= |r2.freed| && |NewFrees(s, r2)| == |s.blocks|
    ensures forall b :: b in s.blocks ==> multiset(NewFrees(s, r2))[Release(b.ptr, b.deleter)] == 1
  {
    StopOnEmpty(r1, r2);
    StopFreesEachOnce(s, r1);
  }

  /** Proof step of `MemoryManager.Stop`: destroying block `i` after those before it adds its own frees, and its address is not yet freed. */
  lemma DestroyNext(bs: seq<Block>, i: nat)
    requires DistinctPtrs(bs) && i < |bs|
    ensures Releases(bs[..i + 1]) == Releases(bs[..i]) + Destroy(bs[i])
    ensures Held(bs[..i + 1]) == Held(bs[..i]) + (if bs[i].ptr != Null then {bs[i].ptr} else {})
    ensures bs[i].ptr !in Held(bs[..i])
  {
    assert bs[..i + 1] == bs[..i] + [bs[i]];
    assert bs[..i + 1][..i] == bs[..i];
  }

  class MemoryManager {
    var memoryBlocks: seq<Block>
    const heap: Heap

    ghost predicate Valid()
      reads this, heap
    {
      heap.Valid() && Inv(View())
    }

    function View(): Snapshot
      reads this, heap
    {
      Snapshot(memoryBlocks, heap.live, heap.freed)
    }

    /** A new manager starts with an empty registry. */
    constructor (heap: Heap)
      requires heap.Valid()
      ensures Valid() && this.heap == heap && memoryBlocks == []
    {
      this.heap := heap;
      memoryBlocks := [];
    }

    /** `allocateArray<T>(size)`; `p` is the address `new T[size]` returned. */
    method AllocateArray(t: CppType, size: nat) returns (ghost p: Handle)
      requires Valid()
      requires !t.isClass
      modifies this, heap
      ensures Valid()
      ensures p != Null && p !in old(heap.live)
      ensures View() == AllocateArrayStep(old(View()), t, size, p)
    {
      var a := ArrayOf(t, size);
      var raw := heap.New(a);
      memoryBlocks := memoryBlocks + [Block(raw, DeleterFor(a))];
      p := raw;
    }

    /** `allocate<T>(args...)`; `p` is the address `new T(args...)` returned. */
    method Allocate(t: CppType) returns (ghost p: Handle)
      requires Valid()
      requires t.isClass
      modifies this, heap
      ensures Valid()
      ensures p != Null && p !in old(heap.live)
      ensures View() == AllocateStep(old(View()), t, p)
    {
      var a := SingleObject(t);
      var raw := heap.New(a);
      memoryBlocks := memoryBlocks + [Block(raw, DeleterFor(a))];
      p := raw;
    }

    /** `stop()`: clearing the vector destroys every block, then the registry is empty. */
    method Stop()
      requires Valid()
      modifies this, heap
      ensures Valid()
      ensures StopStep(old(View()), View())
    {
      var bs := memoryBlocks;
      ghost var live0, freed0 := heap.live, heap.freed;
      var i := 0;
      while i < |bs|
        invariant 0 <= i <= |bs|
        invariant memoryBlocks == bs && heap.Valid()
        invariant heap.freed == freed0 + Releases(bs[..i])
        invariant heap.live == live0 - Held(bs[..i])
      {
        var b := bs[i];
        DestroyNext(bs, i);
        assert Tracked(live0, b);
        if b.ptr != Null {
          heap.Delete(b.ptr, b.deleter);
        }
        i := i + 1;
      }
      assert bs[..i] == bs;
      memoryBlocks := [];
    }
  }
}
