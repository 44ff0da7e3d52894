/** How the one-level scan relates to true, transitive reachability. */
module LsanReachability {
  import opened Common
  import opened LsanHeap

  /** A chain of active allocations, each holding the base address of the next. */
  ghost predicate Path(h: Heap, mem: Memory, p: seq<nat>) {
    && p != []
    && (forall k :: 0 <= k < |p| ==> Active(h, p[k]))
    && (forall k :: 0 < k < |p| ==> PointsTo(h, mem, p[k - 1], p[k]))
  }

  ghost predicate PathTo(h: Heap, mem: Memory, p: seq<nat>, j: nat) {
    Path(h, mem, p) && p[|p| - 1] == j
  }

  ghost predicate Rooted(h: Heap, mem: Memory, i: nat) {
    i < |h.allocs| && RootRefers(h, mem, h.allocs[i].addr)
  }

  /** Some chain leads from a root region to `j`. */
  ghost predicate Reachable(h: Heap, mem: Memory, j: nat) {
    exists p: seq<nat> :: PathTo(h, mem, p, j) && Rooted(h, mem, p[0])
  }

  /** `i` lies on a cycle of pointers; a self-pointer is one. */
  ghost predicate OnCycle(h: Heap, mem: Memory, i: nat) {
    exists c: seq<nat> :: PathTo(h, mem, c, i) && |c| >= 2 && c[0] == i
  }

  /** A cycle through `i` none of whose members is reachable. */
  ghost predicate OnLostCycle(h: Heap, mem: Memory, i: nat) {
    exists c: seq<nat> :: PathTo(h, mem, c, i) && |c| >= 2 && c[0] == i && AllLost(h, mem, c)
  }

  ghost predicate AllLost(h: Heap, mem: Memory, p: seq<nat>) {
    forall k :: 0 <= k < |p| ==> !Reachable(h, mem, p[k])
  }

  ghost predicate Acyclic(h: Heap, mem: Memory) {
    forall i: nat :: !OnCycle(h, mem, i)
  }

  // ----- soundness -----

  /** Over any heap contents, a reported allocation is active, not ignored, not reachable by any
      chain from a root region, and not based inside a root region that does not wrap. */
  lemma ReportsAreSound(h: Heap, mem: Memory, j: nat)
    requires Reported(h, mem, j)
    ensures Active(h, j) && !h.allocs[j].ignored && !Reachable(h, mem, j)
    ensures forall r :: 0 <= r < |h.roots| && h.roots[r].addr + h.roots[r].size < ADDRESS_SPACE ==>
              !(h.roots[r].addr <= h.allocs[j].addr < h.roots[r].addr + h.roots[r].size)
  {
    forall p: seq<nat> | PathTo(h, mem, p, j) ensures |p| == 1 {
      LastLink(h, mem, p);
    }
    forall r | 0 <= r < |h.roots| && h.roots[r].addr + h.roots[r].size < ADDRESS_SPACE
      ensures !(h.roots[r].addr <= h.allocs[j].addr < h.roots[r].addr + h.roots[r].size)
    {
      assert !IsPointerInside(h.allocs[j].addr, h.roots[r].addr, h.roots[r].size);
    }
  }

  lemma LastLink(h: Heap, mem: Memory, p: seq<nat>)
    requires Path(h, mem, p)
    ensures |p| == 1 || PointsTo(h, mem, p[|p| - 2], p[|p| - 1])
  {
  }

  // ----- completeness -----

  /** A sequence of different table positions is no longer than the table. */
  lemma {:induction false} DifferentPositionsFit(p: seq<nat>, n: nat)
    requires forall k :: 0 <= k < |p| ==> p[k] < n
    requires forall k, l :: 0 <= k < l < |p| ==> p[k] != p[l]
    ensures |p| <= n
    decreases n
  {
    if p != [] {
      assert 0 <= p[0] < n;
      if k :| 0 <= k < |p| && p[k] == n - 1 {
        DifferentPositionsFit(p[..k] + p[k + 1..], n - 1);
      } else {
        DifferentPositionsFit(p, n - 1);
      }
    }
  }

  lemma PathExtends(h: Heap, mem: Memory, p: seq<nat>, i: nat, j: nat)
    requires PathTo(h, mem, p, i) && PointsTo(h, mem, i, j) && Active(h, j)
    ensures PathTo(h, mem, p + [j], j)
  {
    var q := p + [j];
    forall k | 0 < k < |q| ensures PointsTo(h, mem, q[k - 1], q[k]) {
      if k < |p| { assert PointsTo(h, mem, p[k - 1], p[k]); }
    }
  }

  lemma PathPrepends(h: Heap, mem: Memory, p: seq<nat>, i: nat)
    requires Path(h, mem, p) && PointsTo(h, mem, i, p[0])
    ensures PathTo(h, mem, [i] + p, p[|p| - 1])
  {
    var q := [i] + p;
    forall k | 0 < k < |q| ensures PointsTo(h, mem, q[k - 1], q[k]) {
      if k > 1 { assert PointsTo(h, mem, p[k - 2], p[k - 1]); }
    }
  }

  /** What an unreachable allocation hangs off: a reported allocation, an ignored one that
      nothing refers to, or a cycle of unreachable allocations. */
  ghost predicate LeakSource(h: Heap, mem: Memory, i: nat) {
    || Reported(h, mem, i)
    || (Active(h, i) && h.allocs[i].ignored && !Referenced(h, mem, i))
    || OnLostCycle(h, mem, i)
  }

  /** Over any heap contents, every unreachable active allocation is downstream, through
      unreachable allocations only, of a leak source. */
  lemma LostIsDownstream(h: Heap, mem: Memory, j: nat)
    requires Active(h, j) && !Reachable(h, mem, j)
    ensures exists p: seq<nat> :: PathTo(h, mem, p, j) && AllLost(h, mem, p) && LeakSource(h, mem, p[0])
  {
    assert PathTo(h, mem, [j], j);
    var p := Climb(h, mem, [j], j);
  }

  /** Follow references backwards until a source turns up. */
  lemma {:induction false} Climb(h: Heap, mem: Memory, p: seq<nat>, j: nat) returns (q: seq<nat>)
    requires PathTo(h, mem, p, j) && AllLost(h, mem, p)
    requires forall k, l :: 0 <= k < l < |p| ==> p[k] != p[l]
    ensures PathTo(h, mem, q, j) && AllLost(h, mem, q) && LeakSource(h, mem, q[0])
    decreases |h.allocs| - |p|
  {
    q := p;
    if Referenced(h, mem, p[0]) {
      assert PathTo(h, mem, [p[0]], p[0]);
      assert !Rooted(h, mem, p[0]);
      var i: nat :| PointsTo(h, mem, i, p[0]);
      assert !Reachable(h, mem, i) by {
        if Reachable(h, mem, i) { ReachableExtends(h, mem, i, p[0]); }
      }
      PathPrepends(h, mem, p, i);
      var longer := [i] + p;
      assert AllLost(h, mem, longer);
      if k :| 0 <= k < |p| && p[k] == i {
        ReturnsToCycle(h, mem, p, k, i);
        q := p[k..];
        PathSuffix(h, mem, p, k);
      } else {
        DifferentPositionsFit(longer, |h.allocs|);
        q := Climb(h, mem, longer, j);
      }
    }
  }

  lemma ReachableExtends(h: Heap, mem: Memory, i: nat, j: nat)
    requires Reachable(h, mem, i) && PointsTo(h, mem, i, j) && Active(h, j)
    ensures Reachable(h, mem, j)
  {
    var p: seq<nat> :| PathTo(h, mem, p, i) && Rooted(h, mem, p[0]);
    PathExtends(h, mem, p, i, j);
    assert (p + [j])[0] == p[0];
  }

  lemma PathSuffix(h: Heap, mem: Memory, p: seq<nat>, k: nat)
    requires Path(h, mem, p) && k < |p|
    ensures PathTo(h, mem, p[k..], p[|p| - 1])
  {
    var q := p[k..];
    forall l | 0 < l < |q| ensures PointsTo(h, mem, q[l - 1], q[l]) {
      assert q[l] == p[k + l] && q[l - 1] == p[k + l - 1];
    }
  }

  lemma ReturnsToCycle(h: Heap, mem: Memory, p: seq<nat>, k: nat, i: nat)
    requires Path(h, mem, p) && AllLost(h, mem, p) && k < |p| && p[k] == i && PointsTo(h, mem, i, p[0])
    ensures OnLostCycle(h, mem, i)
  {
    var front := p[..k + 1];
    assert Path(h, mem, front) by {
      assert forall l :: 0 < l < |front| ==> PointsTo(h, mem, p[l - 1], p[l]);
    }
    PathPrepends(h, mem, front, i);
    assert AllLost(h, mem, [i] + front);
  }

  /** On acyclic heaps every unreachable allocation is downstream of a reported one or of an
      ignored one that nothing refers to. */
  lemma AcyclicLostIsDownstreamOfReport(h: Heap, mem: Memory, j: nat)
    requires Acyclic(h, mem) && Active(h, j) && !Reachable(h, mem, j)
    ensures exists p: seq<nat> :: PathTo(h, mem, p, j) &&
              (Reported(h, mem, p[0]) || (h.allocs[p[0]].ignored && !Referenced(h, mem, p[0])))
  {
    LostIsDownstream(h, mem, j);
    var p: seq<nat> :| PathTo(h, mem, p, j) && AllLost(h, mem, p) && LeakSource(h, mem, p[0]);
    assert !OnCycle(h, mem, p[0]);
  }

  /** The check is complete on acyclic heaps: with nothing ignored it finds no leak if and only
      if every active allocation is transitively reachable from the roots. */
  lemma CompleteOnAcyclicHeaps(h: Heap, mem: Memory)
    requires Acyclic(h, mem)
    requires forall i: nat :: Active(h, i) ==> !h.allocs[i].ignored
    ensures Leaks(h, mem, |h.allocs|) == [] <==> forall j: nat :: Active(h, j) ==> Reachable(h, mem, j)
  {
    var leaks := Leaks(h, mem, |h.allocs|);
    if j: nat :| Active(h, j) && !Reachable(h, mem, j) {
      AcyclicLostIsDownstreamOfReport(h, mem, j);
      var p: seq<nat> :| && PathTo(h, mem, p, j)
                         && (Reported(h, mem, p[0]) || (h.allocs[p[0]].ignored && !Referenced(h, mem, p[0])));
      assert Active(h, p[0]);
      assert p[0] in leaks;
    } else if leaks != [] {
      assert Reported(h, mem, leaks[0]);
      ReportsAreSound(h, mem, leaks[0]);
    }
  }

  /** With nothing ignored, over any heap contents: a check without findings leaves something
      unreachable if and only if there is a cycle of unreachable allocations. */
  lemma SilentMissIffLostCycle(h: Heap, mem: Memory)
    requires forall i: nat :: Active(h, i) ==> !h.allocs[i].ignored
    requires Leaks(h, mem, |h.allocs|) == []
    ensures (exists j: nat :: Active(h, j) && !Reachable(h, mem, j)) <==> (exists i: nat :: OnLostCycle(h, mem, i))
  {
    if j: nat :| Active(h, j) && !Reachable(h, mem, j) {
      LostIsDownstream(h, mem, j);
      var p: seq<nat> :| PathTo(h, mem, p, j) && AllLost(h, mem, p) && LeakSource(h, mem, p[0]);
      assert Active(h, p[0]) && p[0] !in Leaks(h, mem, |h.allocs|);
      assert OnLostCycle(h, mem, p[0]);
    }
    if i: nat :| OnLostCycle(h, mem, i) {
      var c: seq<nat> :| PathTo(h, mem, c, i) && |c| >= 2 && c[0] == i && AllLost(h, mem, c);
      assert Active(h, c[0]) && !Reachable(h, mem, c[0]);
    }
  }

  /** Cycles do hide leaks: one allocation that holds its own address, and no roots. */
  lemma SelfPointerHidesLeak()
    ensures var h, mem := Heap([Alloc(16, 8, true, false)], []), (a: nat) => 16;
            Leaks(h, mem, 1) == [] && Active(h, 0) && !Reachable(h, mem, 0)
  {
    var h, mem := Heap([Alloc(16, 8, true, false)], []), (a: nat) => 16;
    assert mem(16 + WORD_SIZE * 0) == 16;
    assert PointsTo(h, mem, 0, 0);
    assert forall i: nat :: !RootRefers(h, mem, i);
  }
}
