/** The ThreadSanitizer runtime as it is written: global tables updated in place
    under one lock. Every operation is proved to take the step TsanState gives it. */
module TsanRuntime {
  import opened Common
  import opened ProbeTable
  import opened TsanState

  /** How an operation ends; the last two do not return in the original. */
  datatype Status = Returned | Reported(report: Report) | Died

  /** `status` and `after` are what an outcome of the step functions stands for. */
  ghost predicate Is(outcome: Outcome, status: Status, after: State) {
    match outcome
    case Continue(s, _) => status == Returned && after == s
    case Race(report) => status == Reported(report)
    case TooManyThreads => status == Died
  }

  ghost predicate Takes(before: State, e: Event, status: Status, after: State)
    requires Valid(before)
  {
    Is(Step(before, e), status, after)
  }

  class Tsan {
    const threads: array<Thread>
    const shadow: array<Shadow>
    const mutexes: array<Mutex>
    var threadCount: nat
    var tidOf: map<nat, nat>

    ghost function Abs(): State
      reads this, threads, shadow, mutexes
    {
      State(threads[..], shadow[..], mutexes[..], threadCount, tidOf)
    }

    ghost predicate Ready()
      reads this, threads, shadow, mutexes
    {
      Valid(Abs())
    }

    constructor ()
      ensures Ready() && Abs() == Initial()
      ensures fresh(threads) && fresh(shadow) && fresh(mutexes)
    {
      threads := new Thread[MAX_THREADS](i => BLANK_THREAD);
      shadow := new Shadow[SHADOW_ENTRIES](i => BLANK_SHADOW);
      mutexes := new Mutex[MAX_MUTEXES](i => BLANK_MUTEX);
      threadCount := 0;
      tidOf := map[];
      new;
      assert threads[..] == Initial().threads;
      assert shadow[..] == Initial().shadow;
      assert mutexes[..] == Initial().mutexes;
    }

    /** tsan_get_tid */
    method GetTid(o: nat) returns (tid: Option<nat>)
      requires Ready()
      modifies this, threads
      ensures tid.None? <==> Registered(old(Abs()), o).None?
      ensures tid.Some? ==> Ready() && Abs() == Registered(old(Abs()), o).value && tid.value == tidOf[o]
    {
      if o !in tidOf {
        threadCount := threadCount + 1;
        var newTid := threadCount;
        if newTid >= MAX_THREADS {
          return None;
        }
        tidOf := tidOf[o := newTid];
        threads[newTid] := Thread(newTid, threads[newTid].vc, threads[newTid].active);
        threads[newTid] := Thread(newTid, threads[newTid].vc, true);
        threads[newTid] := Thread(newTid, ZeroClock(), true);
        threads[newTid] := Thread(newTid, Inc(ZeroClock(), newTid), true);
      }
      return Some(tidOf[o]);
    }

    /** tsan_vc_inc on a thread's clock */
    method IncClock(tid: Tid)
      requires Ready()
      modifies threads
      ensures Ready() && Abs() == WithClock(old(Abs()), tid, Inc(old(Abs()).threads[tid].vc, tid))
    {
      var t := threads[tid];
      threads[tid] := t.(vc := t.vc[tid := t.vc[tid] + 1]);
    }

    /** tsan_vc_join of a mutex clock into a thread's clock */
    method JoinClock(tid: Tid, src: Clock)
      requires Ready()
      modifies threads
      ensures Ready() && Abs() == WithClock(old(Abs()), tid, Join(old(Abs()).threads[tid].vc, src))
    {
      ghost var before := threads[tid].vc;
      for i := 0 to MAX_THREADS
        invariant threads[..] == old(threads[..])[tid := old(threads[tid]).(vc := threads[tid].vc)]
        invariant forall j :: 0 <= j < i ==> threads[tid].vc[j] == Join(before, src)[j]
        invariant forall j :: i <= j < MAX_THREADS ==> threads[tid].vc[j] == before[j]
      {
        if src[i] > threads[tid].vc[i] {
          var t := threads[tid];
          threads[tid] := t.(vc := t.vc[i := src[i]]);
        }
      }
      assert threads[tid].vc == Join(before, src);
    }

    /** tsan_shadow_get(addr, 1) */
    method ShadowGet(addr: nat) returns (slot: Option<nat>)
      requires Ready()
      modifies shadow
      ensures slot == FindShadow(old(Abs()), addr)
      ensures slot.None? ==> Abs() == old(Abs())
      ensures slot.Some? ==> slot.value < shadow.Length
      ensures slot.Some? ==> var e := old(shadow[slot.value]);
                             shadow[..] == old(shadow[..])[slot.value := Shadow(addr, e.vc, e.tid, e.isWrite, true)]
    {
      ghost var ks, d := ShadowKeys(shadow[..]), 0;
      var start := ShadowHash(addr);
      var idx := start;
      while true
        invariant d < SHADOW_ENTRIES && idx == Wrap(start, d, SHADOW_ENTRIES)
        invariant shadow[..] == old(shadow[..])
        invariant ProbeFrom(ks, start, addr, true, d) == FindShadow(old(Abs()), addr)
        decreases SHADOW_ENTRIES - d
      {
        assert ks[idx] == ShadowKey(shadow[idx]);
        if shadow[idx].active && shadow[idx].addr == addr {
          return Some(idx);
        }
        if !shadow[idx].active {
          shadow[idx] := shadow[idx].(addr := addr);
          shadow[idx] := shadow[idx].(active := true);
          return Some(idx);
        }
        idx := (idx + 1) % SHADOW_ENTRIES;
        d := d + 1;
        if idx == start {
          break;
        }
      }
      return None;
    }

    /** tsan_access */
    method Access(o: nat, addr: nat, isWrite: bool) returns (status: Status)
      requires Ready()
      modifies this, threads, shadow
      ensures status == Returned ==> Ready()
      ensures Takes(old(Abs()), By(o, TsanState.Access(addr, isWrite)), status, Abs())
    {
      var got := GetTid(o);
      if got.None? {
        return Died;
      }
      status := LockedAccess(got.value, addr, isWrite);
    }

    /** The body of tsan_access that runs under the lock */
    method LockedAccess(tid: Tid, addr: nat, isWrite: bool) returns (status: Status)
      requires Ready() && 1 <= tid <= threadCount
      modifies threads, shadow
      ensures Is(AccessStep(old(Abs()), tid, addr, isWrite), status, Abs())
    {
      var slot := ShadowGet(addr);
      if slot.None? {
        return Returned;
      }
      var k := slot.value;
      var e := shadow[k];
      if e.tid != tid {
        if isWrite || e.isWrite {
          if && !EpochBefore(threads[e.tid].vc, threads[tid].vc, e.tid)
             && !EpochBefore(threads[tid].vc, threads[e.tid].vc, tid) {
            return Reported(Report(addr, tid, isWrite, e.tid, e.isWrite));
          }
        }
      }
      Record(tid, k, isWrite);
      return Returned;
    }

    /** The end of tsan_access: the shadow slot takes the access, the thread's clock ticks */
    method Record(tid: Tid, k: nat, isWrite: bool)
      requires Ready() && 1 <= tid <= threadCount && k < SHADOW_ENTRIES && shadow[k].active
      modifies threads, shadow
      ensures var s, vc := old(Abs()), old(Abs()).threads[tid].vc;
              var e := Shadow(s.shadow[k].addr, vc, tid, isWrite, true);
              Abs() == WithClock(s.(shadow := s.shadow[k := e]), tid, Inc(vc, tid))
    {
      ghost var s := Abs();
      shadow[k] := shadow[k].(vc := threads[tid].vc);
      shadow[k] := shadow[k].(tid := tid);
      shadow[k] := shadow[k].(isWrite := isWrite);
      assert Abs() == s.(shadow := s.shadow[k := Shadow(s.shadow[k].addr, s.threads[tid].vc, tid, isWrite, true)]);
      IncClock(tid);
    }

    /** __tsan_read_range and __tsan_write_range */
    method AccessRange(o: nat, addr: nat, end: nat, isWrite: bool) returns (status: Status)
      requires Ready()
      modifies this, threads, shadow
      ensures status == Returned ==> Ready()
      ensures Is(RangeStep(old(Abs()), o, addr, end, isWrite), status, Abs())
    {
      var a := addr;
      ghost var goal := RangeStep(Abs(), o, addr, end, isWrite);
      while a < end
        invariant Ready()
        invariant RangeStep(Abs(), o, a, end, isWrite) == goal
      {
        status := Access(o, a, isWrite);
        if status != Returned {
          return;
        }
        a := a + 1;
      }
      return Returned;
    }

    /** tsan_mutex_find */
    method MutexFind(addr: nat, alloc: bool) returns (slot: Option<nat>)
      requires Ready()
      modifies mutexes
      ensures slot == FindMutex(old(Abs()), addr, alloc)
      ensures slot.None? || !alloc ==> Abs() == old(Abs())
      ensures slot.Some? ==> slot.value < mutexes.Length
      ensures slot.Some? ==> forall j :: 0 <= j < mutexes.Length && j != slot.value ==> mutexes[j] == old(mutexes[j])
      ensures slot.Some? && alloc ==>
                var m := old(mutexes[slot.value]);
                mutexes[slot.value] == if m.active then m else Mutex(addr, ZeroClock(), m.ownerTid, true)
    {
      ghost var ks, d := MutexKeys(mutexes[..]), 0;
      var start := (addr / WORD_SIZE) % MAX_MUTEXES;
      var idx := start;
      while true
        invariant d < MAX_MUTEXES && idx == Wrap(start, d, MAX_MUTEXES)
        invariant mutexes[..] == old(mutexes[..])
        invariant ProbeFrom(ks, start, addr, alloc, d) == FindMutex(old(Abs()), addr, alloc)
        decreases MAX_MUTEXES - d
      {
        assert ks[idx] == MutexKey(mutexes[idx]);
        if mutexes[idx].active && mutexes[idx].addr == addr {
          return Some(idx);
        }
        if !mutexes[idx].active && alloc {
          mutexes[idx] := mutexes[idx].(addr := addr);
          mutexes[idx] := mutexes[idx].(active := true);
          mutexes[idx] := mutexes[idx].(vc := ZeroClock());
          return Some(idx);
        }
        idx := (idx + 1) % MAX_MUTEXES;
        d := d + 1;
        if idx == start {
          break;
        }
      }
      return None;
    }

    method MutexCreate(addr: nat)
      requires Ready()
      modifies mutexes
      ensures Ready() && Takes(old(Abs()), Create(addr), Returned, Abs())
    {
      var m := MutexFind(addr, true);
      if m.Some? {
        mutexes[m.value] := mutexes[m.value].(ownerTid := -1);
        mutexes[m.value] := mutexes[m.value].(vc := ZeroClock());
        assert MutexKeys(old(mutexes[..]))[m.value] == MutexKey(old(mutexes[m.value]));
        assert mutexes[..] == old(mutexes[..])[m.value := Mutex(addr, ZeroClock(), -1, true)];
      }
    }

    method MutexDestroy(addr: nat)
      requires Ready()
      modifies mutexes
      ensures Ready() && Takes(old(Abs()), Destroy(addr), Returned, Abs())
    {
      var m := MutexFind(addr, false);
      if m.Some? {
        mutexes[m.value] := mutexes[m.value].(active := false);
      }
    }

    /** __tsan_mutex_pre_lock and __tsan_mutex_pre_unlock: a checked write to the mutex address */
    method MutexPre(o: nat, addr: nat) returns (status: Status)
      requires Ready()
      modifies this, threads, shadow
      ensures status == Returned ==> Ready()
      ensures Takes(old(Abs()), By(o, TsanState.Access(addr, true)), status, Abs())
    {
      status := Access(o, addr, true);
    }

    method MutexPostLock(o: nat, addr: nat) returns (status: Status)
      requires Ready()
      modifies this, threads, mutexes
      ensures status == Returned ==> Ready()
      ensures Takes(old(Abs()), By(o, PostLock(addr)), status, Abs())
    {
      var got := GetTid(o);
      if got.None? {
        return Died;
      }
      Acquire(got.value, addr);
      return Returned;
    }

    /** The body of __tsan_mutex_post_lock that runs under the lock */
    method Acquire(tid: Tid, addr: nat)
      requires Ready() && 1 <= tid <= threadCount
      modifies threads, mutexes
      ensures Abs() == LockStep(old(Abs()), tid, addr).s
    {
      var m := MutexFind(addr, false);
      if m.Some? {
        JoinClock(tid, mutexes[m.value].vc);
        mutexes[m.value] := mutexes[m.value].(ownerTid := tid);
      }
    }

    method MutexPostUnlock(o: nat, addr: nat) returns (status: Status)
      requires Ready()
      modifies this, threads, mutexes
      ensures status == Returned ==> Ready()
      ensures Takes(old(Abs()), By(o, PostUnlock(addr)), status, Abs())
    {
      var got := GetTid(o);
      if got.None? {
        return Died;
      }
      Release(got.value, addr);
      return Returned;
    }

    /** The body of __tsan_mutex_post_unlock that runs under the lock */
    method Release(tid: Tid, addr: nat)
      requires Ready() && 1 <= tid <= threadCount
      modifies mutexes
      ensures Abs() == UnlockStep(old(Abs()), tid, addr).s
    {
      var m := MutexFind(addr, false);
      if m.Some? {
        mutexes[m.value] := mutexes[m.value].(vc := threads[tid].vc);
        var e := mutexes[m.value];
        mutexes[m.value] := e.(vc := e.vc[tid := e.vc[tid] + 1]);
      }
    }
  }
}
