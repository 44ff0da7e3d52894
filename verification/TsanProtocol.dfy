/** The hooks used as they are meant to be: every lock and unlock of a mutex comes after a checked
    write to its address by the same thread. Then no two threads are ever synchronised. */
module TsanProtocol {
  import opened HappensBefore
  import opened TsanClocks
  import opened TsanRaces
  import opened TsanState

  predicate Synchronises(r: Rec) {
    r.RAcquire? || r.RRelease?
  }

  /** The mutex address an event locks or unlocks. */
  function Target(e: Event): nat {
    if e.By? && (e.op.PostLock? || e.op.PostUnlock?) then e.op.addr else 0
  }

  predicate AccessTo(r: Rec, a: nat) {
    r.RAccess? && r.addr == a
  }

  ghost predicate Wrote(log: Log, t: nat, a: nat) {
    exists i: nat :: i < |log| && AccessTo(log[i], a) && log[i].tid == t && log[i].isWrite
  }

  ghost predicate NeverRead(log: Log, a: nat) {
    forall i :: 0 <= i < |log| && AccessTo(log[i], a) ==> log[i].isWrite
  }

  /** The hook protocol, as far as it matters: whoever locks or unlocks a mutex has written its
      address before (as the pre-hooks do), and nobody reads that address. */
  ghost predicate Protocol(es: seq<Event>, log: Log)
    requires |log| == |es|
  {
    forall j :: 0 <= j < |es| && Synchronises(log[j]) ==>
      Wrote(log[..j], log[j].tid, Target(es[j])) && NeverRead(log, Target(es[j]))
  }

  // ----- what every step keeps -----

  ghost predicate OneAccessor(log: Log, a: nat) {
    forall i, j :: 0 <= i < |log| && 0 <= j < |log| && AccessTo(log[i], a) && AccessTo(log[j], a) ==>
      log[i].tid == log[j].tid
  }

  /** No thread knows of another; a mutex entry knows only of threads that wrote its address, and
      an address that is never read has been accessed by one thread only. */
  ghost predicate Isolated(s: State, log: Log)
    requires Valid(s)
  {
    && (forall t: Tid, u: Tid :: t != u ==> s.threads[u].vc[t] == 0)
    && (forall k: nat, t: Tid :: k < MAX_MUTEXES && s.mutexes[k].vc[t] != 0 ==> Wrote(log, t, s.mutexes[k].addr))
    && (forall a :: NeverRead(log, a) ==> OneAccessor(log, a))
  }

  lemma {:induction false} WroteAppend(log: Log, r: Rec)
    ensures forall t, a :: Wrote(log, t, a) ==> Wrote(log + [r], t, a)
  {
    forall t, a | Wrote(log, t, a) ensures Wrote(log + [r], t, a) {
      var i: nat :| i < |log| && AccessTo(log[i], a) && log[i].tid == t && log[i].isWrite;
      assert (log + [r])[i] == log[i];
    }
  }

  lemma {:induction false} OneAccessorAppend(log: Log, r: Rec, a: nat)
    requires NeverRead(log, a) ==> OneAccessor(log, a)
    requires AccessTo(r, a) && r.isWrite && LastAccess(log, a).Some? ==> log[LastAccess(log, a).value].tid == r.tid
    ensures NeverRead(log + [r], a) ==> OneAccessor(log + [r], a)
  {
    var log' := log + [r];
    assert forall i :: 0 <= i < |log| ==> log'[i] == log[i];
    assert log'[|log|] == r;
  }

  lemma {:induction false} OthersAppend(log: Log, r: Rec)
    requires forall a :: NeverRead(log, a) ==> OneAccessor(log, a)
    requires !r.RAccess?
    ensures forall a :: NeverRead(log + [r], a) ==> OneAccessor(log + [r], a)
  {
    forall a ensures NeverRead(log + [r], a) ==> OneAccessor(log + [r], a) {
      OneAccessorAppend(log, r, a);
    }
  }

  /** Two threads that know nothing of each other race whenever their accesses conflict. */
  lemma {:induction false} ConflictIsRace(s: State, log: Log, t: Tid, addr: nat, isWrite: bool)
    requires Inv(s, log) && ShadowInv(s, log) && Isolated(s, log) && 1 <= t <= s.threadCount
    requires LastAccess(log, addr).Some?
    ensures var p, r := log[LastAccess(log, addr).value], AccessStep(s, t, addr, isWrite);
            && (r.Race? <==> Conflicts(log, t, addr, isWrite))
            && (r.Race? ==> r.report == Report(addr, t, isWrite, p.tid, p.isWrite))
  {
    LookupFindsLastAccess(s, log, addr);
    var i := LastAccess(log, addr).value;
    assert ByThread(log[i], log[i].tid);
    assert Own(s, t) >= 1 && Own(s, log[i].tid) >= 1;
  }

  lemma {:induction false} AccessIsolated(s: State, log: Log, t: Tid, addr: nat, isWrite: bool)
    requires Inv(s, log) && ShadowInv(s, log) && Isolated(s, log) && 1 <= t <= s.threadCount
    requires AccessStep(s, t, addr, isWrite).Continue?
    ensures var r := AccessStep(s, t, addr, isWrite); Isolated(r.s, log + [r.rec])
  {
    var Continue(s', rec) := AccessStep(s, t, addr, isWrite);
    WroteAppend(log, rec);
    if LastAccess(log, addr).Some? {
      ConflictIsRace(s, log, t, addr, isWrite);
    }
    forall a ensures NeverRead(log + [rec], a) ==> OneAccessor(log + [rec], a) {
      OneAccessorAppend(log, rec, a);
    }
  }

  lemma FoundMutex(s: State, addr: nat)
    requires Valid(s)
    ensures var f := FindMutex(s, addr, false); f.Some? ==> s.mutexes[f.value].active && s.mutexes[f.value].addr == addr
  {
  }

  /** What an entry passes on comes from the one thread that wrote the mutex address. */
  lemma {:induction false} LockIsolated(s: State, log: Log, t: Tid, addr: nat)
    requires Valid(s) && Isolated(s, log) && 1 <= t <= s.threadCount
    requires Synchronises(LockStep(s, t, addr).rec) ==> Wrote(log, t, addr) && NeverRead(log, addr)
    ensures var r := LockStep(s, t, addr); Isolated(r.s, log + [r.rec])
  {
    var Continue(s', rec) := LockStep(s, t, addr);
    WroteAppend(log, rec);
    OthersAppend(log, rec);
    FoundMutex(s, addr);
    if rec.RAcquire? {
      var m := s.mutexes[rec.slot];
      forall u: Tid | u != t ensures m.vc[u] == 0 {
        OnlyWriter(log, t, u, addr);
      }
    }
  }

  lemma {:induction false} OnlyWriter(log: Log, t: nat, u: nat, a: nat)
    requires NeverRead(log, a) && OneAccessor(log, a) && Wrote(log, t, a) && u != t
    ensures !Wrote(log, u, a)
  {
    var i: nat :| i < |log| && AccessTo(log[i], a) && log[i].tid == t && log[i].isWrite;
    forall j: nat | j < |log| && AccessTo(log[j], a) ensures log[j].tid == t {
    }
  }

  lemma {:induction false} UnlockIsolated(s: State, log: Log, t: Tid, addr: nat)
    requires Valid(s) && Isolated(s, log) && 1 <= t <= s.threadCount
    requires Synchronises(UnlockStep(s, t, addr).rec) ==> Wrote(log, t, addr)
    ensures var r := UnlockStep(s, t, addr); Isolated(r.s, log + [r.rec])
  {
    var Continue(s', rec) := UnlockStep(s, t, addr);
    WroteAppend(log, rec);
    OthersAppend(log, rec);
    FoundMutex(s, addr);
  }

  lemma {:induction false} OpIsolated(s: State, log: Log, t: Tid, op: Op)
    requires Inv(s, log) && ShadowInv(s, log) && Isolated(s, log) && 1 <= t <= s.threadCount
    requires OpStep(s, t, op).Continue?
    requires Synchronises(OpStep(s, t, op).rec) ==> Wrote(log, t, op.addr) && NeverRead(log, op.addr)
    ensures Isolated(OpStep(s, t, op).s, log + [OpStep(s, t, op).rec])
  {
    match op
    case FuncEntry =>
      WroteAppend(log, RNone);
      OthersAppend(log, RNone);
    case Access(addr, isWrite) => AccessIsolated(s, log, t, addr, isWrite);
    case PostLock(addr) => LockIsolated(s, log, t, addr);
    case PostUnlock(addr) => UnlockIsolated(s, log, t, addr);
  }

  lemma {:induction false} RegisterIsolated(s: State, log: Log, o: nat)
    requires Inv(s, log) && ShadowInv(s, log) && Isolated(s, log) && Registered(s, o).Some?
    ensures var s' := Registered(s, o).value; Inv(s', log) && ShadowInv(s', log) && Isolated(s', log)
  {
    RegisterKeeps(s, log, o);
    assert Registered(s, o).value.shadow == s.shadow;
  }

  lemma {:induction false} ThreadIsolated(s: State, log: Log, o: nat, op: Op)
    requires Inv(s, log) && ShadowInv(s, log) && Isolated(s, log) && Step(s, By(o, op)).Continue?
    requires var r := Step(s, By(o, op)).rec; Synchronises(r) ==> Wrote(log, r.tid, op.addr) && NeverRead(log, op.addr)
    ensures Isolated(Step(s, By(o, op)).s, log + [Step(s, By(o, op)).rec])
  {
    RegisterIsolated(s, log, o);
    var s' := Registered(s, o).value;
    OpIsolated(s', log, s'.tidOf[o], op);
  }

  lemma {:induction false} TableIsolated(s: State, log: Log, s': State, rec: Rec)
    requires Valid(s) && Isolated(s, log) && Valid(s') && s'.threads == s.threads && !rec.RAccess?
    requires forall k: nat, t: Tid :: k < MAX_MUTEXES && s'.mutexes[k].vc[t] != 0 ==>
               s'.mutexes[k].addr == s.mutexes[k].addr && s'.mutexes[k].vc == s.mutexes[k].vc
    ensures Isolated(s', log + [rec])
  {
    WroteAppend(log, rec);
    OthersAppend(log, rec);
  }

  lemma {:induction false} CreateIsolated(s: State, log: Log, addr: nat)
    requires Valid(s) && Isolated(s, log)
    ensures var r := CreateStep(s, addr); Isolated(r.s, log + [r.rec])
  {
    TableIsolated(s, log, CreateStep(s, addr).s, CreateStep(s, addr).rec);
  }

  lemma {:induction false} DestroyIsolated(s: State, log: Log, addr: nat)
    requires Valid(s) && Isolated(s, log)
    ensures var r := DestroyStep(s, addr); Isolated(r.s, log + [r.rec])
  {
    TableIsolated(s, log, DestroyStep(s, addr).s, RNone);
  }

  lemma {:induction false} StepIsolated(s: State, log: Log, e: Event)
    requires Inv(s, log) && ShadowInv(s, log) && Isolated(s, log) && Step(s, e).Continue?
    requires var r := Step(s, e).rec; Synchronises(r) ==> Wrote(log, r.tid, Target(e)) && NeverRead(log, Target(e))
    ensures Isolated(Step(s, e).s, log + [Step(s, e).rec])
  {
    match e
    case Create(addr) => CreateIsolated(s, log, addr);
    case Destroy(addr) => DestroyIsolated(s, log, addr);
    case By(o, op) => ThreadIsolated(s, log, o, op);
  }

  lemma {:induction false} ProtocolInit(es: seq<Event>, log: Log)
    requires |log| == |es| > 0 && Protocol(es, log)
    ensures var n := |es| - 1;
            && Protocol(es[..n], log[..n])
            && (Synchronises(log[n]) ==>
                  Wrote(log[..n], log[n].tid, Target(es[n])) && NeverRead(log[..n], Target(es[n])))
  {
    var n := |es| - 1;
    forall j | 0 <= j < n && Synchronises(log[..n][j])
      ensures Wrote(log[..n][..j], log[j].tid, Target(es[j])) && NeverRead(log[..n], Target(es[j]))
    {
      assert log[..n][..j] == log[..j];
    }
  }

  lemma {:induction false} RunIsolated(es: seq<Event>)
    requires Run(es).Running? && Protocol(es, Run(es).log)
    ensures Isolated(Run(es).s, Run(es).log)
    decreases |es|
  {
    if es != [] {
      var n := |es| - 1;
      LastStep(es);
      ProtocolInit(es, Run(es).log);
      RunIsolated(es[..n]);
      RunKeeps(es[..n]);
      ShadowIsLastAccessMap(es[..n]);
      StepIsolated(Run(es[..n]).s, Run(es[..n]).log, es[n]);
    }
  }

  // ----- theorems over every run that follows the protocol -----

  /** No run that follows the protocol and is still running has synchronised two threads: every
      foreign clock component is zero, and nothing a thread did happens before another's present. */
  lemma {:induction false} NothingIsSynchronised(es: seq<Event>, t: Tid, u: Tid)
    requires Run(es).Running? && Protocol(es, Run(es).log) && t != u
    ensures Run(es).s.threads[u].vc[t] == 0
    ensures forall i :: 0 <= i < |es| && ByThread(Run(es).log[i], t) ==> !HBPresent(Run(es).log, i, u)
  {
    RunIsolated(es);
    RunKeeps(es);
    NothingSeen(Run(es).s, Run(es).log, t, u);
  }

  lemma {:induction false} NoReleaseSeen(log: Log, S: set<nat>, t: Tid)
    requires Exact(log, S, t, 0)
    ensures forall r :: r in S && r < |log| ==> !(log[r].RRelease? && log[r].tid == t)
  {
    forall r | r in S && r < |log| ensures !ReleaseBy(log, r, t) {
    }
    assert forall r: nat :: r < |log| ==> (ReleaseBy(log, r, t) <==> log[r].RRelease? && log[r].tid == t);
  }

  lemma {:induction false} NothingSeen(s: State, log: Log, t: Tid, u: Tid)
    requires Inv(s, log) && t != u && s.threads[u].vc[t] == 0
    ensures forall i :: 0 <= i < |log| && ByThread(log[i], t) ==> !HBPresent(log, i, u)
  {
    NoReleaseSeen(log, Seen(log, u), t);
    forall i: nat | i < |log| && ByThread(log[i], t) ensures !HBPresent(log, i, u) {
      SeenIsHB(log, i);
      SeenThroughRelease(log, i, t);
    }
  }

  /** So an access is reported if and only if the last recorded access event to its address is by
      another thread and one of the two writes: the clocks play no part. */
  lemma {:induction false} VerdictIsConflict(es: seq<Event>, o: nat, addr: nat, isWrite: bool)
    requires Run(es).Running? && Protocol(es, Run(es).log) && Registered(Run(es).s, o).Some?
    ensures Step(Run(es).s, By(o, Access(addr, isWrite))).Race? <==>
            exists i: nat :: Clash(es, Run(es).log, o, addr, isWrite, i)
  {
    ClashIsConflict(es, o, addr, isWrite);
    if LastAccess(Run(es).log, addr).None? {
      FirstAccessIsSilent(es, o, addr, isWrite);
    } else {
      RunIsolated(es);
      RunKeeps(es);
      ShadowIsLastAccessMap(es);
      MomentConflict(Run(es).s, Run(es).log, o, addr, isWrite);
    }
  }

  lemma {:induction false} MomentConflict(s: State, log: Log, o: nat, addr: nat, isWrite: bool)
    requires Inv(s, log) && ShadowInv(s, log) && Isolated(s, log) && Registered(s, o).Some?
    requires LastAccess(log, addr).Some?
    ensures var t := Registered(s, o).value.tidOf[o];
            var p, r := log[LastAccess(log, addr).value], Step(s, By(o, Access(addr, isWrite)));
            && (r.Race? <==> Conflicts(log, t, addr, isWrite))
            && (r.Race? ==> r.report == Report(addr, t, isWrite, p.tid, p.isWrite))
  {
    var s1 := Registered(s, o).value;
    RegisterIsolated(s, log, o);
    ConflictIsRace(s1, log, s1.tidOf[o], addr, isWrite);
  }

  /** And the pre-hook of a second thread on a mutex is always reported: once `p` has written an
      address that is never read, a write to it by any other thread names `p` in its report. */
  lemma {:induction false} SecondLockerIsReported(es: seq<Event>, o: nat, a: nat, p: Tid)
    requires Run(es).Running? && Protocol(es, Run(es).log) && Registered(Run(es).s, o).Some?
    requires Wrote(Run(es).log, p, a) && NeverRead(Run(es).log, a) && Registered(Run(es).s, o).value.tidOf[o] != p
    ensures var t := Registered(Run(es).s, o).value.tidOf[o];
            Step(Run(es).s, By(o, Access(a, true))) == Race(Report(a, t, true, p, true))
  {
    RunIsolated(es);
    RunKeeps(es);
    ShadowIsLastAccessMap(es);
    LastWriter(Run(es).log, p, a);
    MomentConflict(Run(es).s, Run(es).log, o, a, true);
  }

  lemma {:induction false} LastWriter(log: Log, p: nat, a: nat)
    requires Wrote(log, p, a) && NeverRead(log, a) && OneAccessor(log, a)
    ensures LastAccess(log, a).Some? && log[LastAccess(log, a).value].tid == p && log[LastAccess(log, a).value].isWrite
  {
    var i: nat :| i < |log| && AccessTo(log[i], a) && log[i].tid == p && log[i].isWrite;
    assert AccessTo(log[LastAccess(log, a).value], a);
  }
}
