/** The LeakSanitizer registries and the leak decision, over an arbitrary heap graph. */
module LsanHeap {
  import opened Common

  const MAX_ALLOCS: nat := 4096
  const MAX_ROOTS: nat := 256

  datatype Alloc = Alloc(addr: Address, size: Word, active: bool, ignored: bool)
  datatype Root = Root(addr: Address, size: Word)

  /** The registered part of both tables. */
  datatype Heap = Heap(allocs: seq<Alloc>, roots: seq<Root>)

  /** The word stored at an address. */
  type Memory = nat -> nat

  ghost predicate Valid(h: Heap) {
    |h.allocs| <= MAX_ALLOCS && |h.roots| <= MAX_ROOTS
  }

  // ----- the decision -----

  /** Region bounds are computed in 64 bits. */
  predicate IsPointerInside(p: nat, base: nat, size: nat) {
    p >= base && p < (base + size) % ADDRESS_SPACE
  }

  /** One of the whole words of a region holds the value. */
  ghost predicate Contains(mem: Memory, base: nat, size: nat, value: nat) {
    exists w: nat :: w < size / WORD_SIZE && mem(base + WORD_SIZE * w) == value
  }

  ghost predicate RootRefers(h: Heap, mem: Memory, a: nat) {
    exists r :: 0 <= r < |h.roots| &&
      (IsPointerInside(a, h.roots[r].addr, h.roots[r].size) || Contains(mem, h.roots[r].addr, h.roots[r].size, a))
  }

  ghost predicate Active(h: Heap, i: nat) {
    i < |h.allocs| && h.allocs[i].active
  }

  /** Active allocation `i` holds the base address of `j`. */
  ghost predicate PointsTo(h: Heap, mem: Memory, i: nat, j: nat) {
    Active(h, i) && j < |h.allocs| && Contains(mem, h.allocs[i].addr, h.allocs[i].size, h.allocs[j].addr)
  }

  /** What the scan calls reachable: a root or some active allocation refers to it directly. */
  ghost predicate Referenced(h: Heap, mem: Memory, j: nat)
    requires j < |h.allocs|
  {
    RootRefers(h, mem, h.allocs[j].addr) || exists i: nat :: PointsTo(h, mem, i, j)
  }

  ghost predicate Reported(h: Heap, mem: Memory, j: nat) {
    Active(h, j) && !h.allocs[j].ignored && !Referenced(h, mem, j)
  }

  /** The reported allocations among the first `n`, in table order. */
  ghost function Leaks(h: Heap, mem: Memory, n: nat): (r: seq<nat>)
    requires n <= |h.allocs|
    ensures forall j: nat :: j in r <==> j < n && Reported(h, mem, j)
    ensures |r| <= n
  {
    if n == 0 then []
    else Leaks(h, mem, n - 1) + if Reported(h, mem, n - 1) then [n - 1] else []
  }

  // ----- the registries -----

  function RegisterAlloc(h: Heap, addr: Address, size: Word): Heap {
    if |h.allocs| >= MAX_ALLOCS then h
    else Heap(h.allocs + [Alloc(addr, size, true, false)], h.roots)
  }

  /** The first active entry of an address, or the table length. */
  function FirstActive(allocs: seq<Alloc>, addr: Address): nat {
    FirstIndex(allocs, (a: Alloc) => a.addr == addr && a.active)
  }

  function UnregisterAlloc(h: Heap, addr: Address): Heap {
    var k := FirstActive(h.allocs, addr);
    if k == |h.allocs| then h
    else Heap(h.allocs[k := h.allocs[k].(active := false)], h.roots)
  }

  function RegisterRoot(h: Heap, addr: Address, size: Word): Heap {
    if |h.roots| >= MAX_ROOTS then h
    else Heap(h.allocs, h.roots + [Root(addr, size)])
  }

  function FirstRoot(roots: seq<Root>, addr: Address): nat {
    FirstIndex(roots, (r: Root) => r.addr == addr)
  }

  /** The last root takes the place of the one removed. */
  function UnregisterRoot(h: Heap, addr: Address): Heap {
    var k, n := FirstRoot(h.roots, addr), |h.roots|;
    if k == n then h else Heap(h.allocs, h.roots[k := h.roots[n - 1]][..n - 1])
  }

  /** The first entry of an address, active or not, or the table length. */
  function FirstEntry(allocs: seq<Alloc>, addr: Address): nat {
    FirstIndex(allocs, (a: Alloc) => a.addr == addr)
  }

  function IgnoreObject(h: Heap, addr: Address): Heap {
    var k := FirstEntry(h.allocs, addr);
    if k == |h.allocs| then h
    else Heap(h.allocs[k := h.allocs[k].(ignored := true)], h.roots)
  }

  /** Replacing an element by the last one and dropping that takes out exactly the element. */
  lemma SwapRemove<T>(s: seq<T>, k: nat)
    requires k < |s|
    ensures multiset(s[k := s[|s| - 1]][..|s| - 1]) == multiset(s) - multiset{s[k]}
  {
    var n := |s| - 1;
    assert s == s[..n] + [s[n]];
    if k < n {
      assert s[k := s[n]][..n] == s[..n][k := s[n]];
    } else {
      assert s[k := s[n]][..n] == s[..n];
    }
  }

  /** Unregistering a root removes exactly one root of that address, whatever its size, and
      keeps every other one. */
  lemma UnregisterRemovesOneRoot(h: Heap, addr: Address)
    ensures var h' := UnregisterRoot(h, addr);
            if exists r :: 0 <= r < |h.roots| && h.roots[r].addr == addr
            then exists r :: 0 <= r < |h.roots| && h.roots[r].addr == addr
                          && multiset(h'.roots) == multiset(h.roots) - multiset{h.roots[r]}
            else h' == h
  {
    var k := FirstRoot(h.roots, addr);
    if k < |h.roots| {
      SwapRemove(h.roots, k);
      assert h.roots[k].addr == addr;
      assert multiset(UnregisterRoot(h, addr).roots) == multiset(h.roots) - multiset{h.roots[k]};
    }
  }

  /** Ignoring an object silences its report if and only if no older entry, freed or not, has the
      address; no other report changes. */
  lemma IgnoreSilencesIff(h: Heap, mem: Memory, addr: Address, j: nat)
    ensures Reported(IgnoreObject(h, addr), mem, j) <==>
            Reported(h, mem, j) && (h.allocs[j].addr != addr || exists i :: 0 <= i < j && h.allocs[i].addr == addr)
  {
    var h' := IgnoreObject(h, addr);
    assert |h'.allocs| == |h.allocs| && h'.roots == h.roots;
    forall i: nat | i < |h.allocs| ensures PointsTo(h', mem, i, j) <==> PointsTo(h, mem, i, j) {
    }
  }
}
