/** The LeakSanitizer runtime as it is written: two fixed tables with counters. Timestamps are not
    modelled; memory contents and the captured stack traces are parameters of the check. */
module LsanRuntime {
  import opened Common
  import opened LsanHeap
  import opened LsanRegistry
  import DigitPrinter

  /** How a check ends: with a count, by dying with one, or never, stuck in printing an entry. */
  datatype Outcome = Found(leaks: nat) | Died(leaks: nat) | Stuck(entry: nat)

  /** The program counters of a captured stack trace. */
  type Trace = seq<Address>

  /** Printing the entry at index `j`, with its address and its stack trace, ends. */
  ghost predicate Prints(h: Heap, traces: nat -> Trace, j: nat)
    requires j < |h.allocs|
  {
    && DigitPrinter.PrintablePointer(h.allocs[j].addr)
    && forall pc :: pc in traces(j) ==> DigitPrinter.PrintablePointer(pc)
  }

  class Lsan {
    const allocs: array<Alloc>
    const roots: array<Root>
    var allocCount: nat
    var rootCount: nat
    var disabled: bool

    ghost predicate Ready()
      reads this
    {
      && allocs.Length == MAX_ALLOCS && roots.Length == MAX_ROOTS
      && allocCount <= MAX_ALLOCS && rootCount <= MAX_ROOTS
    }

    ghost function Abs(): (h: Heap)
      requires Ready()
      reads this, allocs, roots
      ensures Valid(h)
    {
      Heap(allocs[..allocCount], roots[..rootCount])
    }

    ghost function Now(): Monitor
      requires Ready()
      reads this, allocs, roots
    {
      Monitor(Abs(), disabled)
    }

    constructor ()
      ensures Ready() && Now() == STARTED
      ensures fresh(allocs) && fresh(roots)
    {
      allocs := new Alloc[MAX_ALLOCS](i => Alloc(0, 0, true, false));
      roots := new Root[MAX_ROOTS](i => Root(0, 0));
      allocCount, rootCount, disabled := 0, 0, false;
    }

    method RegisterAlloc(addr: Address, size: Word)
      requires Ready()
      modifies this`allocCount, allocs
      ensures Ready() && Now() == Perform(old(Now()), Register(addr, size))
    {
      if disabled {
        return;
      }
      if allocCount >= MAX_ALLOCS {
        return;
      }
      var idx := allocCount;
      allocCount := allocCount + 1;
      allocs[idx] := allocs[idx].(addr := addr);
      allocs[idx] := allocs[idx].(size := size);
      allocs[idx] := allocs[idx].(active := true);
      allocs[idx] := allocs[idx].(ignored := false);
      assert allocs[..allocCount] == old(allocs[..allocCount]) + [Alloc(addr, size, true, false)];
    }

    method UnregisterAlloc(addr: Address)
      requires Ready()
      modifies allocs
      ensures Ready() && Now() == Perform(old(Now()), Unregister(addr))
    {
      if disabled {
        return;
      }
      ghost var k := FirstActive(allocs[..allocCount], addr);
      for i := 0 to allocCount
        invariant i <= k && allocs[..] == old(allocs[..])
      {
        assert i < k ==> !(allocs[..allocCount][i].addr == addr && allocs[..allocCount][i].active);
        if allocs[i].addr == addr && allocs[i].active {
          allocs[i] := allocs[i].(active := false);
          assert allocs[..allocCount] == old(allocs[..allocCount])[i := old(allocs[i]).(active := false)];
          return;
        }
      }
    }

    method RegisterRoot(addr: Address, size: Word)
      requires Ready()
      modifies this`rootCount, roots
      ensures Ready() && Now() == Perform(old(Now()), AddRoot(addr, size))
    {
      if rootCount < MAX_ROOTS {
        var idx := rootCount;
        rootCount := rootCount + 1;
        roots[idx] := roots[idx].(addr := addr);
        roots[idx] := roots[idx].(size := size);
        assert roots[..rootCount] == old(roots[..rootCount]) + [Root(addr, size)];
      }
    }

    method UnregisterRoot(addr: Address)
      requires Ready()
      modifies this`rootCount, roots
      ensures Ready() && Now() == Perform(old(Now()), DropRoot(addr))
    {
      ghost var before := roots[..rootCount];
      ghost var k := FirstRoot(before, addr);
      for i := 0 to rootCount
        invariant i <= k && roots[..] == old(roots[..]) && rootCount == old(rootCount)
      {
        assert i < k ==> before[i].addr != addr;
        if roots[i].addr == addr {
          rootCount := rootCount - 1;
          roots[i] := roots[rootCount];
          assert roots[..rootCount] == before[i := before[rootCount]][..rootCount];
          break;
        }
      }
    }

    method IgnoreObject(addr: Address)
      requires Ready()
      modifies allocs
      ensures Ready() && Now() == Perform(old(Now()), Ignore(addr))
    {
      ghost var k := FirstEntry(allocs[..allocCount], addr);
      for i := 0 to allocCount
        invariant i <= k && allocs[..] == old(allocs[..])
      {
        assert i < k ==> allocs[..allocCount][i].addr != addr;
        if allocs[i].addr == addr {
          allocs[i] := allocs[i].(ignored := true);
          assert allocs[..allocCount] == old(allocs[..allocCount])[i := old(allocs[i]).(ignored := true)];
          break;
        }
      }
    }

    /** __lsan_disable */
    method Disable()
      requires Ready()
      modifies this`disabled
      ensures Ready() && Now() == Perform(old(Now()), Call.Disable)
    {
      disabled := true;
    }

    /** __lsan_enable */
    method Enable()
      requires Ready()
      modifies this`disabled
      ensures Ready() && Now() == Perform(old(Now()), Call.Enable)
    {
      disabled := false;
    }

    /** The inner scan of a region, word by word. */
    method Scan(mem: Memory, base: nat, size: nat, value: nat) returns (found: bool)
      ensures found <==> Contains(mem, base, size, value)
    {
      var words := size / WORD_SIZE;
      for w := 0 to words
        invariant forall v: nat :: v < w ==> mem(base + WORD_SIZE * v) != value
      {
        if mem(base + WORD_SIZE * w) == value {
          return true;
        }
      }
      return false;
    }

    /** lsan_mark_reachable, for the allocation at index `j` */
    method MarkReachable(mem: Memory, j: nat) returns (found: bool)
      requires Ready() && j < allocCount
      ensures found <==> Referenced(Abs(), mem, j)
    {
      ghost var h := Abs();
      for r := 0 to rootCount
        invariant forall q :: 0 <= q < r ==>
          && !IsPointerInside(allocs[j].addr, roots[q].addr, roots[q].size)
          && !Contains(mem, roots[q].addr, roots[q].size, allocs[j].addr)
      {
        assert h.roots[r] == roots[r];
        if IsPointerInside(allocs[j].addr, roots[r].addr, roots[r].size) {
          return true;
        }
        var hit := Scan(mem, roots[r].addr, roots[r].size, allocs[j].addr);
        if hit {
          return true;
        }
      }
      for i := 0 to allocCount
        invariant forall q: nat :: q < i ==> !PointsTo(h, mem, q, j)
      {
        assert h.allocs[i] == allocs[i] && h.allocs[j] == allocs[j];
        if !allocs[i].active {
          continue;
        }
        var hit := Scan(mem, allocs[i].addr, allocs[i].size, allocs[j].addr);
        if hit {
          assert PointsTo(h, mem, i, j);
          return true;
        }
      }
      return false;
    }

    /** drt_print_stack_trace: whether it returns */
    method PrintTrace(trace: Trace) returns (returned: bool)
      ensures returned <==> forall pc :: pc in trace ==> DigitPrinter.PrintablePointer(pc)
    {
      for i := 0 to |trace|
        invariant forall k :: 0 <= k < i ==> DigitPrinter.PrintablePointer(trace[k])
      {
        var _, printed := DigitPrinter.PutPointer(trace[i], 0);
        if !printed {
          return false;
        }
      }
      return true;
    }

    /** The report of one leak: whether printing it returns */
    method PrintLeak(traces: nat -> Trace, j: nat) returns (returned: bool)
      requires Ready() && j < allocCount
      ensures returned <==> Prints(Abs(), traces, j)
    {
      assert Abs().allocs[j] == allocs[j];
      var _, printed := DigitPrinter.PutPointer(allocs[j].addr, 0);
      if !printed {
        return false;
      }
      returned := PrintTrace(traces(j));
    }

    /** lsan_do_check_internal: `reported` lists the allocations it begins to print, in order. The
        check gets stuck at the first of them that cannot be printed; if all can, a fatal check
        with findings dies. */
    method DoCheck(mem: Memory, traces: nat -> Trace, fatal: bool) returns (outcome: Outcome, reported: seq<nat>)
      requires Ready()
      ensures outcome.Stuck? <==> exists j :: j in Leaks(Abs(), mem, allocCount) && !Prints(Abs(), traces, j)
      ensures outcome.Stuck? ==>
                var j := outcome.entry;
                && j < allocCount && !Prints(Abs(), traces, j) && reported == Leaks(Abs(), mem, j) + [j]
                && forall i :: i in Leaks(Abs(), mem, j) ==> Prints(Abs(), traces, i)
      ensures !outcome.Stuck? ==> reported == Leaks(Abs(), mem, allocCount) && outcome.leaks == |reported|
      ensures outcome.Died? ==> fatal && reported != []
      ensures outcome.Found? ==> !fatal || reported == []
    {
      var leaksFound := 0;
      reported := [];
      for i := 0 to allocCount
        invariant reported == Leaks(Abs(), mem, i) && leaksFound == |reported|
        invariant forall j :: j in reported ==> Prints(Abs(), traces, j)
      {
        if !allocs[i].active {
          continue;
        }
        if allocs[i].ignored {
          continue;
        }
        var found := MarkReachable(mem, i);
        if !found {
          leaksFound := leaksFound + 1;
          reported := reported + [i];
          assert Reported(Abs(), mem, i);
          var printed := PrintLeak(traces, i);
          if !printed {
            assert i in Leaks(Abs(), mem, allocCount);
            return Stuck(i), reported;
          }
        }
      }
      if leaksFound != 0 && fatal {
        return Died(leaksFound), reported;
      }
      return Found(leaksFound), reported;
    }
  }
}
