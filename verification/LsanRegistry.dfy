/** What the LeakSanitizer's tables hold after any sequence of calls, and what a check then reports,
    told from the calls alone. */
module LsanRegistry {
  import opened Common
  import opened LsanHeap

  /** The entry points that change the tables. */
  datatype Call =
    | Register(addr: Address, size: Word)
    | Unregister(addr: Address)
    | Ignore(addr: Address)
    | AddRoot(addr: Address, size: Word)
    | DropRoot(addr: Address)
    | Disable
    | Enable

  datatype Monitor = Monitor(heap: Heap, disabled: bool)

  const STARTED := Monitor(Heap([], []), false)

  function Perform(m: Monitor, c: Call): Monitor {
    match c
    case Register(addr, size) => if m.disabled then m else m.(heap := RegisterAlloc(m.heap, addr, size))
    case Unregister(addr) => if m.disabled then m else m.(heap := UnregisterAlloc(m.heap, addr))
    case Ignore(addr) => m.(heap := IgnoreObject(m.heap, addr))
    case AddRoot(addr, size) => m.(heap := RegisterRoot(m.heap, addr, size))
    case DropRoot(addr) => m.(heap := UnregisterRoot(m.heap, addr))
    case Disable => m.(disabled := true)
    case Enable => m.(disabled := false)
  }

  function PerformAll(calls: seq<Call>): Monitor {
    if calls == [] then STARTED else Perform(PerformAll(calls[..|calls| - 1]), calls[|calls| - 1])
  }

  // ----- the account kept from the calls alone -----

  /** Base and size of a region. */
  type Extent = (Address, Word)

  /** Every extent ever entered, the numbers of those not yet freed, oldest first, and the roots. */
  datatype Account = Account(entries: seq<Extent>, live: seq<nat>, roots: seq<Extent>, disabled: bool)

  const NOTHING := Account([], [], [], false)

  predicate HasBase(entries: seq<Extent>, i: nat, addr: Address) {
    i < |entries| && entries[i].0 == addr
  }

  /** Without the oldest live entry of an address, if there is one. */
  function WithoutOldest(entries: seq<Extent>, live: seq<nat>, addr: Address): seq<nat> {
    if live == [] then []
    else if HasBase(entries, live[0], addr) then live[1..]
    else [live[0]] + WithoutOldest(entries, live[1..], addr)
  }

  /** Without the first root of a base, if there is one; the last root takes its place. */
  function WithoutFirst(roots: seq<Extent>, addr: Address): seq<Extent> {
    if roots == [] then []
    else if roots[0].0 != addr then [roots[0]] + WithoutFirst(roots[1..], addr)
    else if |roots| == 1 then []
    else [roots[|roots| - 1]] + roots[1..|roots| - 1]
  }

  function Tally(a: Account, c: Call): Account {
    match c
    case Register(addr, size) =>
      if a.disabled || |a.entries| >= 4096 then a
      else a.(entries := a.entries + [(addr, size)], live := a.live + [|a.entries|])
    case Unregister(addr) => if a.disabled then a else a.(live := WithoutOldest(a.entries, a.live, addr))
    case Ignore(_) => a
    case AddRoot(addr, size) => if |a.roots| >= 256 then a else a.(roots := a.roots + [(addr, size)])
    case DropRoot(addr) => a.(roots := WithoutFirst(a.roots, addr))
    case Disable => a.(disabled := true)
    case Enable => a.(disabled := false)
  }

  function TallyAll(calls: seq<Call>): Account {
    if calls == [] then NOTHING else Tally(TallyAll(calls[..|calls| - 1]), calls[|calls| - 1])
  }

  /** Call `c` ignores the address of entry `i`, entered before. */
  ghost predicate IgnoresLater(calls: seq<Call>, c: nat, i: nat) {
    && c < |calls| && calls[c].Ignore? && i < |TallyAll(calls[..c]).entries|
    && HasBase(TallyAll(calls).entries, i, calls[c].addr)
  }

  /** Entry `i` is ignored: a call since it was entered ignores its address, and no older entry,
      freed or not, has that address. */
  ghost predicate Ignored(calls: seq<Call>, i: nat)
    requires i < |TallyAll(calls).entries|
  {
    var entries := TallyAll(calls).entries;
    (exists c: nat :: IgnoresLater(calls, c, i)) && forall j: nat :: j < i ==> !HasBase(entries, j, entries[i].0)
  }

  // ----- tables and account -----

  ghost predicate Ascending(live: seq<nat>, limit: nat) {
    && (forall i :: 0 <= i < |live| ==> live[i] < limit)
    && (forall i, j :: 0 <= i < j < |live| ==> live[i] < live[j])
  }

  ghost predicate EntriesAgree(allocs: seq<Alloc>, entries: seq<Extent>) {
    |allocs| == |entries| && forall i :: 0 <= i < |allocs| ==> entries[i] == (allocs[i].addr, allocs[i].size)
  }

  ghost predicate LiveAgrees(allocs: seq<Alloc>, live: seq<nat>) {
    Ascending(live, |allocs|) && forall i: nat :: i < |allocs| ==> (allocs[i].active <==> i in live)
  }

  ghost predicate RootsAgree(roots: seq<Root>, extents: seq<Extent>) {
    |roots| == |extents| && forall i :: 0 <= i < |roots| ==> extents[i] == (roots[i].addr, roots[i].size)
  }

  ghost predicate Agrees(m: Monitor, a: Account) {
    && EntriesAgree(m.heap.allocs, a.entries) && LiveAgrees(m.heap.allocs, a.live)
    && RootsAgree(m.heap.roots, a.roots) && m.disabled == a.disabled
  }

  /** Removing the oldest live entry of an address removes the least number of that address. */
  lemma {:induction false} OldestRemoved(entries: seq<Extent>, live: seq<nat>, addr: Address, limit: nat)
    requires Ascending(live, limit)
    ensures Ascending(WithoutOldest(entries, live, addr), limit)
    ensures forall i: nat :: i in WithoutOldest(entries, live, addr) <==> i in live && !IsOldest(entries, live, addr, i)
  {
    if live != [] {
      var first, rest := live[0], live[1..];
      assert live == [first] + rest;
      assert forall i: nat :: i in rest ==> first < i;
      if !HasBase(entries, first, addr) {
        OldestRemoved(entries, rest, addr, limit);
        PrependAscending(first, WithoutOldest(entries, rest, addr), rest, limit);
        forall i: nat ensures IsOldest(entries, live, addr, i) <==> IsOldest(entries, rest, addr, i) {
        }
      } else {
        forall i: nat ensures IsOldest(entries, live, addr, i) <==> i == first {
        }
      }
    }
  }

  ghost predicate IsOldest(entries: seq<Extent>, live: seq<nat>, addr: Address, i: nat) {
    i in live && HasBase(entries, i, addr) && forall j: nat :: j < i && j in live ==> !HasBase(entries, j, addr)
  }

  lemma PrependAscending(first: nat, some: seq<nat>, rest: seq<nat>, limit: nat)
    requires first < limit && Ascending(some, limit) && forall i: nat :: i in rest ==> first < i
    requires forall i: nat :: i in some ==> i in rest
    ensures Ascending([first] + some, limit)
  {
    forall i | 0 <= i < |some| ensures first < some[i] {
      assert some[i] in some;
    }
  }

  lemma {:induction false} UnregisterAgrees(allocs: seq<Alloc>, entries: seq<Extent>, live: seq<nat>, addr: Address)
    requires EntriesAgree(allocs, entries) && LiveAgrees(allocs, live)
    ensures var k := FirstActive(allocs, addr);
            var allocs' := if k == |allocs| then allocs else allocs[k := allocs[k].(active := false)];
            EntriesAgree(allocs', entries) && LiveAgrees(allocs', WithoutOldest(entries, live, addr))
  {
    var k, live' := FirstActive(allocs, addr), WithoutOldest(entries, live, addr);
    OldestRemoved(entries, live, addr, |allocs|);
    forall i: nat | i < |allocs| ensures i in live' <==> allocs[i].active && i != k {
      assert forall j: nat :: j < |allocs| ==> (HasBase(entries, j, addr) <==> allocs[j].addr == addr);
      if i > k {
        assert k in live && HasBase(entries, k, addr);
      }
    }
  }

  /** `WithoutFirst` swap-removes the first extent of a base. */
  lemma {:induction false} SwappedOut(roots: seq<Extent>, addr: Address, k: nat)
    requires k <= |roots| && (k < |roots| ==> roots[k].0 == addr) && forall i :: 0 <= i < k ==> roots[i].0 != addr
    ensures WithoutFirst(roots, addr) ==
            if k == |roots| then roots else roots[k := roots[|roots| - 1]][..|roots| - 1]
  {
    if roots != [] {
      if k == 0 {
        SwapHead(roots);
      } else {
        assert forall i :: 0 <= i < |roots| - 1 ==> roots[1..][i] == roots[i + 1];
        SwappedOut(roots[1..], addr, k - 1);
        if k < |roots| {
          SwapTail(roots, k - 1);
        }
      }
    }
  }

  lemma SwapHead<T>(s: seq<T>)
    requires s != []
    ensures var n := |s| - 1; s[0 := s[n]][..n] == if n == 0 then [] else [s[n]] + s[1..n]
  {
  }

  lemma SwapTail<T>(s: seq<T>, k: nat)
    requires k + 1 < |s|
    ensures var n := |s| - 1; s[k + 1 := s[n]][..n] == [s[0]] + s[1..][k := s[1..][n - 1]][..n - 1]
  {
  }

  lemma DropRootAgrees(h: Heap, extents: seq<Extent>, addr: Address)
    requires RootsAgree(h.roots, extents)
    ensures RootsAgree(UnregisterRoot(h, addr).roots, WithoutFirst(extents, addr))
  {
    SwappedOut(extents, addr, FirstRoot(h.roots, addr));
  }

  lemma {:induction false} CallAgrees(m: Monitor, a: Account, c: Call)
    requires Agrees(m, a)
    ensures Agrees(Perform(m, c), Tally(a, c))
  {
    match c
    case Register(addr, size) =>
    case Unregister(addr) => UnregisterAgrees(m.heap.allocs, a.entries, a.live, addr);
    case Ignore(addr) =>
    case AddRoot(addr, size) =>
    case DropRoot(addr) => DropRootAgrees(m.heap, a.roots, addr);
    case Disable =>
    case Enable =>
  }

  /** After every sequence of calls the tables hold what the account of the calls says: registering
      enters an extent unless the hooks are disabled or 4096 were entered before, unregistering
      frees the oldest live one of its address, and roots come and go by base. */
  lemma {:induction false} TablesFollowCalls(calls: seq<Call>)
    ensures Agrees(PerformAll(calls), TallyAll(calls))
  {
    if calls != [] {
      var front := calls[..|calls| - 1];
      TablesFollowCalls(front);
      CallAgrees(PerformAll(front), TallyAll(front), calls[|calls| - 1]);
    }
  }

  // ----- ignored entries -----

  lemma {:induction false} EntriesGrow(calls: seq<Call>, c: nat)
    requires c <= |calls|
    ensures TallyAll(calls[..c]).entries <= TallyAll(calls).entries
    decreases |calls|
  {
    if c == |calls| {
      assert calls[..c] == calls;
    } else {
      var front := calls[..|calls| - 1];
      EntriesGrow(front, c);
      assert front[..c] == calls[..c];
    }
  }

  /** An entry that was there before the last call: what that call adds to its being ignored. */
  lemma {:induction false} IgnoredStep(calls: seq<Call>, i: nat)
    requires calls != [] && i < |TallyAll(calls[..|calls| - 1]).entries|
    ensures i < |TallyAll(calls).entries|
    ensures var front, last, entries := calls[..|calls| - 1], calls[|calls| - 1], TallyAll(calls).entries;
            Ignored(calls, i) <==>
              Ignored(front, i) ||
              (last.Ignore? && last.addr == entries[i].0
               && forall j: nat :: j < i ==> !HasBase(entries, j, entries[i].0))
  {
    var n := |calls| - 1;
    var front := calls[..n];
    EntriesGrow(calls, n);
    var entries, entries' := TallyAll(front).entries, TallyAll(calls).entries;
    assert forall j: nat, a: Address :: j < |entries| ==> (HasBase(entries, j, a) <==> HasBase(entries', j, a));
    forall c: nat | c < n ensures IgnoresLater(calls, c, i) <==> IgnoresLater(front, c, i) {
      assert front[..c] == calls[..c];
    }
    assert IgnoresLater(calls, n, i) <==> calls[n].Ignore? && calls[n].addr == entries'[i].0;
  }

  /** An entry that the last call made is not ignored. */
  lemma {:induction false} NewNotIgnored(calls: seq<Call>, i: nat)
    requires calls != [] && |TallyAll(calls[..|calls| - 1]).entries| <= i < |TallyAll(calls).entries|
    ensures !Ignored(calls, i)
  {
    var n := |calls| - 1;
    forall c: nat ensures !IgnoresLater(calls, c, i) {
      if c < |calls| {
        EntriesGrow(calls[..n], c);
        assert calls[..n][..c] == calls[..c];
      }
    }
  }

  /** What a call does to the ignored marks. */
  lemma MarksAfter(m: Monitor, c: Call, i: nat)
    requires i < |Perform(m, c).heap.allocs|
    ensures |m.heap.allocs| <= |Perform(m, c).heap.allocs|
    ensures Perform(m, c).heap.allocs[i].ignored <==>
            i < |m.heap.allocs| && (m.heap.allocs[i].ignored || (c.Ignore? && FirstEntry(m.heap.allocs, c.addr) == i))
  {
  }

  /** In every run an entry is marked exactly when the calls ignore it. */
  lemma {:induction false} IgnoredIff(calls: seq<Call>, i: nat)
    requires i < |TallyAll(calls).entries|
    ensures i < |PerformAll(calls).heap.allocs|
    ensures PerformAll(calls).heap.allocs[i].ignored <==> Ignored(calls, i)
    decreases |calls|
  {
    var n := |calls| - 1;
    var front := calls[..n];
    TablesFollowCalls(calls);
    TablesFollowCalls(front);
    var m, entries := PerformAll(front), TallyAll(calls).entries;
    MarksAfter(m, calls[n], i);
    if i < |m.heap.allocs| {
      IgnoredIff(front, i);
      IgnoredStep(calls, i);
      EntriesGrow(calls, n);
      if calls[n].Ignore? {
        FirstEntryIs(m.heap.allocs, entries, calls[n].addr, i);
      }
    } else {
      NewNotIgnored(calls, i);
    }
  }

  lemma FirstEntryIs(allocs: seq<Alloc>, entries: seq<Extent>, addr: Address, i: nat)
    requires EntriesAgree(allocs, entries) && i < |allocs|
    ensures FirstEntry(allocs, addr) == i <==>
            addr == entries[i].0 && forall j: nat :: j < i ==> !HasBase(entries, j, entries[i].0)
  {
    var k := FirstEntry(allocs, addr);
    assert forall j: nat :: j < |allocs| ==> (HasBase(entries, j, addr) <==> allocs[j].addr == addr);
    if k < i && addr == entries[i].0 {
      assert HasBase(entries, k, addr);
    }
  }

  // ----- what a check reports -----

  /** One of the whole words inside a region holds the value. */
  ghost predicate Holds(mem: Memory, region: Extent, value: Address) {
    exists w: nat :: WordIs(mem, region, w, value)
  }

  predicate WordIs(mem: Memory, region: Extent, w: nat, value: Address) {
    WORD_SIZE * w + WORD_SIZE <= region.1 && mem(region.0 + WORD_SIZE * w) == value
  }

  /** The address lies in the region, which does not run into the end of the address space. */
  predicate LiesIn(addr: Address, region: Extent) {
    region.0 + region.1 < ADDRESS_SPACE && region.0 <= addr < region.0 + region.1
  }

  /** Entry `j` is leaked, by the calls and the memory: it is neither freed nor ignored, lies in no
      root, and neither a root nor a live entry holds its address. */
  ghost predicate Leaked(calls: seq<Call>, mem: Memory, j: nat) {
    var a := TallyAll(calls);
    && j in a.live && j < |a.entries| && !Ignored(calls, j)
    && (forall r :: 0 <= r < |a.roots| ==>
          !LiesIn(a.entries[j].0, a.roots[r]) && !Holds(mem, a.roots[r], a.entries[j].0))
    && (forall i: nat :: i in a.live && i < |a.entries| ==> !Holds(mem, a.entries[i], a.entries[j].0))
  }

  lemma InsideIff(addr: Address, base: Address, size: Word)
    ensures IsPointerInside(addr, base, size) <==> LiesIn(addr, (base, size))
  {
  }

  lemma ContainsIff(mem: Memory, base: Address, size: Word, value: Address)
    ensures Contains(mem, base, size, value) <==> Holds(mem, (base, size), value)
  {
    if Contains(mem, base, size, value) {
      var w: nat :| w < size / WORD_SIZE && mem(base + WORD_SIZE * w) == value;
      WholeWord(size, w);
      assert WordIs(mem, (base, size), w, value);
    }
    if Holds(mem, (base, size), value) {
      var w: nat :| WordIs(mem, (base, size), w, value);
      WholeWord(size, w);
    }
  }

  lemma WholeWord(size: nat, w: nat)
    ensures w < size / WORD_SIZE <==> WORD_SIZE * w + WORD_SIZE <= size
  {
  }

  /** What a check reports after any sequence of calls, told from the calls and the memory. */
  lemma {:induction false} ReportedIffLeaked(calls: seq<Call>, mem: Memory, j: nat)
    ensures Reported(PerformAll(calls).heap, mem, j) <==> Leaked(calls, mem, j)
  {
    var h, a := PerformAll(calls).heap, TallyAll(calls);
    TablesFollowCalls(calls);
    if j < |h.allocs| {
      IgnoredIff(calls, j);
      RootRefersIff(h, a.roots, mem, h.allocs[j].addr);
      PointsToIff(h, a.entries, a.live, mem, j);
    }
  }

  lemma RootRefersIff(h: Heap, roots: seq<Extent>, mem: Memory, addr: Address)
    requires RootsAgree(h.roots, roots)
    ensures RootRefers(h, mem, addr) <==>
            exists r :: 0 <= r < |roots| && (LiesIn(addr, roots[r]) || Holds(mem, roots[r], addr))
  {
    forall r | 0 <= r < |roots|
      ensures IsPointerInside(addr, h.roots[r].addr, h.roots[r].size) <==> LiesIn(addr, roots[r])
      ensures Contains(mem, h.roots[r].addr, h.roots[r].size, addr) <==> Holds(mem, roots[r], addr)
    {
      InsideIff(addr, h.roots[r].addr, h.roots[r].size);
      ContainsIff(mem, h.roots[r].addr, h.roots[r].size, addr);
    }
  }

  lemma PointsToIff(h: Heap, entries: seq<Extent>, live: seq<nat>, mem: Memory, j: nat)
    requires EntriesAgree(h.allocs, entries) && LiveAgrees(h.allocs, live) && j < |h.allocs|
    ensures (exists i: nat :: PointsTo(h, mem, i, j)) <==>
            exists i: nat :: i in live && i < |entries| && Holds(mem, entries[i], entries[j].0)
  {
    forall i: nat | i < |entries|
      ensures PointsTo(h, mem, i, j) <==> i in live && Holds(mem, entries[i], entries[j].0)
    {
      ContainsIff(mem, h.allocs[i].addr, h.allocs[i].size, h.allocs[j].addr);
    }
  }
}
