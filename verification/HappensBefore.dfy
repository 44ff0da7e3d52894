/** Happens-before over the log of a run, in two forms: as paths of edges, and
    as the sets of log positions each thread and each mutex slot has seen. */
module HappensBefore {
  import opened TsanState

  // ----- the reference definition: paths of edges -----

  predicate ByThread(r: Rec, t: nat) {
    (r.RAccess? || r.RAcquire? || r.RRelease?) && r.tid == t
  }

  predicate SameThread(a: Rec, b: Rec) {
    (a.RAccess? || a.RAcquire? || a.RRelease?) && ByThread(b, a.tid)
  }

  /** Steps that replace the clock of a mutex slot. */
  predicate Overwrites(r: Rec, slot: nat) {
    (r.RRelease? || r.RCreate?) && r.slot == slot
  }

  ghost predicate LatestOverwrite(log: Log, i: nat, j: nat, slot: nat)
    requires j <= |log|
  {
    i < j && Overwrites(log[i], slot) && forall k :: i < k < j ==> !Overwrites(log[k], slot)
  }

  /** Program order, or from the latest release of a mutex entry since its creation
      to an acquire of that entry. */
  ghost predicate Edge(log: Log, i: nat, j: nat)
    requires i < j < |log|
  {
    || SameThread(log[i], log[j])
    || (log[j].RAcquire? && log[i].RRelease? && LatestOverwrite(log, i, j, log[j].slot))
  }

  ghost predicate HB(log: Log, i: nat, j: nat)
    requires j < |log|
    decreases j
  {
    i == j || exists k: nat :: i <= k < j && HB(log, i, k) && Edge(log, k, j)
  }

  /** Log position `i` happens before the present of thread `t`. */
  ghost predicate HBPresent(log: Log, i: nat, t: nat) {
    exists j: nat :: j < |log| && ByThread(log[j], t) && HB(log, i, j)
  }

  /** Log position `i` happens before the release whose clock the slot holds. */
  ghost predicate HBSlot(log: Log, i: nat, slot: nat) {
    exists j: nat :: LatestOverwrite(log, j, |log|, slot) && log[j].RRelease? && HB(log, i, j)
  }

  // ----- the same relation, computed forward -----

  /** Positions that happen before the present of thread `t`. */
  ghost function Seen(log: Log, t: nat): (r: set<nat>)
    ensures forall i :: i in r ==> i < |log|
    decreases |log|
  {
    if log == [] then {}
    else
      var n := |log| - 1;
      var prev, r := log[..n], log[n];
      if !ByThread(r, t) then Seen(prev, t)
      else Seen(prev, t) + {n} + (if r.RAcquire? then SlotSeen(prev, r.slot) else {})
  }

  /** Positions that happen before the release a mutex slot holds. */
  ghost function SlotSeen(log: Log, slot: nat): (r: set<nat>)
    ensures forall i :: i in r ==> i < |log|
    decreases |log|
  {
    if log == [] then {}
    else
      var n := |log| - 1;
      var prev, r := log[..n], log[n];
      if !Overwrites(r, slot) then SlotSeen(prev, slot)
      else if r.RRelease? then Seen(prev, r.tid) + {n}
      else {}
  }

  // ----- both forms agree -----

  lemma {:induction false} HBPrefix(log: Log, r: Rec, i: nat, j: nat)
    requires j < |log|
    ensures HB(log + [r], i, j) <==> HB(log, i, j)
    decreases j
  {
    forall k: nat | k < j
      ensures HB(log + [r], i, k) <==> HB(log, i, k)
      ensures Edge(log + [r], k, j) <==> Edge(log, k, j)
    {
      HBPrefix(log, r, i, k);
      EdgePrefix(log, r, k, j);
    }
  }

  lemma {:induction false} EdgePrefix(log: Log, r: Rec, k: nat, j: nat)
    requires k < j < |log|
    ensures Edge(log + [r], k, j) <==> Edge(log, k, j)
  {
    assert forall x :: 0 <= x < |log| ==> (log + [r])[x] == log[x];
  }

  lemma {:induction false} LatestOverwriteAppend(log: Log, r: Rec, i: nat, slot: nat)
    requires i < |log|
    ensures LatestOverwrite(log + [r], i, |log|, slot) <==> LatestOverwrite(log, i, |log|, slot)
    ensures LatestOverwrite(log + [r], i, |log| + 1, slot) <==>
            LatestOverwrite(log, i, |log|, slot) && !Overwrites(r, slot)
  {
    var log' := log + [r];
    assert forall x :: 0 <= x < |log| ==> log'[x] == log[x];
    assert log'[|log|] == r;
  }

  /** What happens before the newest entry. */
  lemma {:induction false} HBLast(log: Log, r: Rec, i: nat)
    requires i <= |log|
    ensures HB(log + [r], i, |log|) <==>
            || i == |log|
            || (exists t :: ByThread(r, t) && HBPresent(log, i, t))
            || (r.RAcquire? && HBSlot(log, i, r.slot))
  {
    var log', n := log + [r], |log|;
    forall k: nat | k < n
      ensures HB(log', i, k) <==> HB(log, i, k)
      ensures log'[k] == log[k]
      ensures r.RAcquire? ==> (LatestOverwrite(log', k, n, r.slot) <==> LatestOverwrite(log, k, n, r.slot))
    {
      HBPrefix(log, r, i, k);
      if r.RAcquire? { LatestOverwriteAppend(log, r, k, r.slot); }
    }
    assert log'[n] == r;
    if i != n {
      if exists t :: ByThread(r, t) && HBPresent(log, i, t) {
        var k: nat :| k < n && ByThread(log[k], r.tid) && HB(log, i, k);
        HBNotBackward(log, i, k);
        assert HB(log', i, k) && Edge(log', k, n);
      }
      if r.RAcquire? && HBSlot(log, i, r.slot) {
        var k: nat :| LatestOverwrite(log, k, n, r.slot) && log[k].RRelease? && HB(log, i, k);
        HBNotBackward(log, i, k);
        assert HB(log', i, k) && Edge(log', k, n);
      }
      if HB(log', i, n) {
        var k: nat :| i <= k < n && HB(log', i, k) && Edge(log', k, n);
        assert HB(log, i, k);
        if SameThread(log'[k], r) {
          assert ByThread(r, r.tid) && ByThread(log[k], r.tid);
          assert HBPresent(log, i, r.tid);
        } else {
          assert LatestOverwrite(log, k, n, r.slot);
        }
      }
    }
  }

  lemma {:induction false} HBNotBackward(log: Log, i: nat, j: nat)
    requires j < |log| && HB(log, i, j)
    ensures i <= j
  {
  }

  /** The forward sets hold exactly the positions that paths of edges reach. */
  lemma {:induction false} SeenIsHB(log: Log, i: nat)
    requires i < |log|
    ensures forall t :: i in Seen(log, t) <==> HBPresent(log, i, t)
    ensures forall slot :: i in SlotSeen(log, slot) <==> HBSlot(log, i, slot)
    decreases |log|
  {
    var n := |log| - 1;
    var prev, r := log[..n], log[n];
    assert log == prev + [r];
    if i < n {
      SeenIsHB(prev, i);
    } else {
      NothingAhead(prev, i);
    }
    HBLast(prev, r, i);
    forall t ensures i in Seen(log, t) <==> HBPresent(log, i, t) {
      SeenStep(prev, r, i, t);
    }
    forall slot ensures i in SlotSeen(log, slot) <==> HBSlot(log, i, slot) {
      SlotSeenStep(prev, r, i, slot);
    }
  }

  lemma {:induction false} NothingAhead(log: Log, i: nat)
    requires i >= |log|
    ensures forall t :: !HBPresent(log, i, t)
    ensures forall slot :: !HBSlot(log, i, slot)
  {
    forall j: nat | j < |log| ensures !HB(log, i, j) {
      if HB(log, i, j) { HBNotBackward(log, i, j); }
    }
  }

  lemma {:induction false} SeenStep(log: Log, r: Rec, i: nat, t: nat)
    requires i <= |log|
    ensures HBPresent(log + [r], i, t) <==>
            HBPresent(log, i, t) || (ByThread(r, t) && HB(log + [r], i, |log|))
  {
    var log' := log + [r];
    forall j: nat | j < |log| ensures HB(log', i, j) <==> HB(log, i, j) {
      HBPrefix(log, r, i, j);
    }
    assert log'[|log|] == r;
    if HBPresent(log, i, t) {
      var j: nat :| j < |log| && ByThread(log[j], t) && HB(log, i, j);
      assert ByThread(log'[j], t) && HB(log', i, j);
    }
    if HBPresent(log', i, t) {
      var j: nat :| j < |log'| && ByThread(log'[j], t) && HB(log', i, j);
      if j < |log| { assert ByThread(log[j], t) && HB(log, i, j); }
    }
  }

  lemma {:induction false} SlotSeenStep(log: Log, r: Rec, i: nat, slot: nat)
    requires i <= |log|
    ensures HBSlot(log + [r], i, slot) <==>
            if Overwrites(r, slot) then r.RRelease? && HB(log + [r], i, |log|) else HBSlot(log, i, slot)
  {
    var log', n := log + [r], |log|;
    forall j: nat | j < n
      ensures HB(log', i, j) <==> HB(log, i, j)
      ensures LatestOverwrite(log', j, n + 1, slot) <==> LatestOverwrite(log, j, n, slot) && !Overwrites(r, slot)
      ensures log'[j] == log[j]
    {
      HBPrefix(log, r, i, j);
      LatestOverwriteAppend(log, r, j, slot);
    }
    assert log'[n] == r;
    if Overwrites(r, slot) {
      assert LatestOverwrite(log', n, n + 1, slot);
    } else if HBSlot(log, i, slot) {
      var j: nat :| LatestOverwrite(log, j, n, slot) && log[j].RRelease? && HB(log, i, j);
      assert LatestOverwrite(log', j, n + 1, slot);
    }
  }

  // ----- closure properties of the seen sets -----

  /** With an entry, everything its thread did earlier has been seen too. */
  lemma {:induction false} SeenDownward(log: Log, i: nat, j: nat, t: nat)
    requires i <= j < |log| && ByThread(log[i], t) && ByThread(log[j], t)
    ensures forall u :: j in Seen(log, u) ==> i in Seen(log, u)
    ensures forall slot :: j in SlotSeen(log, slot) ==> i in SlotSeen(log, slot)
    decreases |log|
  {
    var n := |log| - 1;
    var prev := log[..n];
    if j < n {
      SeenDownward(prev, i, j, t);
    } else if i < n {
      OwnSeen(prev, i, t);
      assert forall u :: n !in Seen(prev, u);
      assert forall slot :: n !in SlotSeen(prev, slot);
    }
  }

  lemma {:induction false} OwnSeen(log: Log, i: nat, t: nat)
    requires i < |log| && ByThread(log[i], t)
    ensures i in Seen(log, t)
    decreases |log|
  {
    if i < |log| - 1 { OwnSeen(log[..|log| - 1], i, t); }
  }

  /** Only a release carries a thread's past to a mutex slot, and so to another thread. */
  lemma {:induction false} SeenThroughRelease(log: Log, i: nat, t: nat)
    requires i < |log| && ByThread(log[i], t)
    ensures forall u :: u != t && i in Seen(log, u) ==>
              exists r :: i <= r < |log| && r in Seen(log, u) && log[r].RRelease? && log[r].tid == t
    ensures forall slot :: i in SlotSeen(log, slot) ==>
              exists r :: i <= r < |log| && r in SlotSeen(log, slot) && log[r].RRelease? && log[r].tid == t
    decreases |log|
  {
    var n := |log| - 1;
    var prev, last := log[..n], log[n];
    if i < n {
      SeenThroughRelease(prev, i, t);
      forall u | u != t && i in Seen(log, u)
        ensures exists r :: i <= r < |log| && r in Seen(log, u) && log[r].RRelease? && log[r].tid == t
      {
        if i in Seen(prev, u) {
          var r :| i <= r < n && r in Seen(prev, u) && prev[r].RRelease? && prev[r].tid == t;
          assert r in Seen(log, u) && log[r] == prev[r];
        } else {
          assert ByThread(last, u) && last.RAcquire? && i in SlotSeen(prev, last.slot);
          var r :| i <= r < n && r in SlotSeen(prev, last.slot) && prev[r].RRelease? && prev[r].tid == t;
          assert r in Seen(log, u) && log[r] == prev[r];
        }
      }
    }
    forall slot | i in SlotSeen(log, slot)
      ensures exists r :: i <= r < |log| && r in SlotSeen(log, slot) && log[r].RRelease? && log[r].tid == t
    {
      if Overwrites(last, slot) {
        if last.RRelease? && last.tid == t {
          assert n in SlotSeen(log, slot);
        } else {
          assert last.RRelease? && i in Seen(prev, last.tid);
          var r :| i <= r < n && r in Seen(prev, last.tid) && prev[r].RRelease? && prev[r].tid == t;
          assert r in SlotSeen(log, slot) && log[r] == prev[r];
        }
      } else {
        var r :| i <= r < n && r in SlotSeen(prev, slot) && prev[r].RRelease? && prev[r].tid == t;
        assert r in SlotSeen(log, slot) && log[r] == prev[r];
      }
    }
  }
}
