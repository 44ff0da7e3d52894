/** What the vector clocks say about happens-before, in every run. */
module TsanClocks {
  import opened TsanEvents
  import opened TsanState
  import opened HappensBefore

  /** The acting thread's own clock component just before the step. */
  function Stamp(r: Rec): nat
    requires r.RAccess? || r.RAcquire? || r.RRelease?
  {
    r.before[r.tid]
  }

  function Own(s: State, t: Tid): nat
    requires Valid(s)
  {
    s.threads[t].vc[t]
  }

  ghost predicate ReleaseBy(log: Log, i: nat, t: nat) {
    i < |log| && log[i].RRelease? && log[i].tid == t
  }

  /** `c` is the largest (stamp + 1) of the releases by `t` among the positions `S`, or 0 if there are none. */
  ghost predicate Exact(log: Log, S: set<nat>, t: Tid, c: nat) {
    && (forall i :: i in S && ReleaseBy(log, i, t) ==> Stamp(log[i]) + 1 <= c)
    && (c == 0 || exists i :: i in S && ReleaseBy(log, i, t) && Stamp(log[i]) + 1 == c)
  }

  ghost predicate Bounded(s: State, log: Log)
    requires Valid(s)
  {
    && (forall i, t: nat :: 0 <= i < |log| && ByThread(log[i], t) ==> 1 <= t <= s.threadCount)
    && (forall i :: 0 <= i < |log| && (log[i].RAcquire? || log[i].RRelease? || log[i].RCreate?) ==>
          log[i].slot < MAX_MUTEXES)
    && (forall t: Tid :: 1 <= t <= s.threadCount ==> Own(s, t) >= 1)
  }

  /** A thread's own component never decreases, and every recorded access advances it. */
  ghost predicate OwnMonotone(s: State, log: Log)
    requires Valid(s)
  {
    && (forall i, t: Tid :: 0 <= i < |log| && ByThread(log[i], t) ==>
          Stamp(log[i]) + (if log[i].RAccess? then 1 else 0) <= Own(s, t))
    && (forall i, j :: 0 <= i < j < |log| && SameThread(log[i], log[j]) ==>
          Stamp(log[i]) + (if log[i].RAccess? then 1 else 0) <= Stamp(log[j]))
  }

  ghost predicate ClocksExact(s: State, log: Log)
    requires Valid(s)
  {
    && (forall t: Tid, u: Tid :: t != u ==> Exact(log, Seen(log, u), t, s.threads[u].vc[t]))
    && (forall t: Tid, k: nat :: k < MAX_MUTEXES ==> Exact(log, SlotSeen(log, k), t, s.mutexes[k].vc[t]))
  }

  ghost predicate Inv(s: State, log: Log) {
    Valid(s) && Bounded(s, log) && OwnMonotone(s, log) && ClocksExact(s, log)
  }

  // ----- how the seen sets and the exact values grow -----

  lemma {:induction false} SeenAppend(log: Log, r: Rec)
    ensures forall t :: Seen(log + [r], t) ==
              if ByThread(r, t) then Seen(log, t) + {|log|} + (if r.RAcquire? then SlotSeen(log, r.slot) else {})
              else Seen(log, t)
    ensures forall k :: SlotSeen(log + [r], k) ==
              if !Overwrites(r, k) then SlotSeen(log, k)
              else if r.RRelease? then Seen(log, r.tid) + {|log|}
              else {}
  {
    assert (log + [r])[..|log|] == log;
    assert (log + [r])[|log|] == r;
  }

  lemma {:induction false} ExactAppend(log: Log, r: Rec, S: set<nat>, t: Tid, c: nat)
    requires Exact(log, S, t, c) && forall i :: i in S ==> i < |log|
    ensures Exact(log + [r], S, t, c)
  {
    assert forall i :: 0 <= i < |log| ==> (log + [r])[i] == log[i];
    assert forall i :: i in S ==> (ReleaseBy(log + [r], i, t) <==> ReleaseBy(log, i, t));
  }

  lemma {:induction false} ExactUnion(log: Log, A: set<nat>, B: set<nat>, t: Tid, a: nat, b: nat)
    requires Exact(log, A, t, a) && Exact(log, B, t, b)
    ensures Exact(log, A + B, t, if b > a then b else a)
  {
  }

  lemma {:induction false} ExactNew(log: Log, r: Rec, S: set<nat>, t: Tid, c: nat)
    requires Exact(log, S, t, c) && forall i :: i in S ==> i < |log|
    requires !(r.RRelease? && r.tid == t)
    ensures Exact(log + [r], S + {|log|}, t, c)
  {
    ExactAppend(log, r, S, t, c);
    assert !ReleaseBy(log + [r], |log|, t);
  }

  // ----- every step keeps the invariant -----

  lemma {:induction false} RegisterKeeps(s: State, log: Log, o: nat)
    requires Inv(s, log) && Registered(s, o).Some?
    ensures Inv(Registered(s, o).value, log)
  {
    var s' := Registered(s, o).value;
    if o !in s.tidOf {
      var n := s'.tidOf[o];
      assert forall i :: 0 <= i < |log| ==> !ByThread(log[i], n);
      SeenOnlyOwn(log, n);
      assert Own(s', n) == 1 && forall t: Tid :: t != n ==> Own(s', t) == Own(s, t);
      forall t: Tid, u: Tid | t != u ensures Exact(log, Seen(log, u), t, s'.threads[u].vc[t]) {
        assert Exact(log, Seen(log, u), t, s.threads[u].vc[t]);
      }
    }
  }

  /** A thread without entries has seen nothing. */
  lemma {:induction false} SeenOnlyOwn(log: Log, t: nat)
    requires forall i :: 0 <= i < |log| ==> !ByThread(log[i], t)
    ensures Seen(log, t) == {}
    decreases |log|
  {
    if log != [] { SeenOnlyOwn(log[..|log| - 1], t); }
  }

  lemma {:induction false} AccessKeeps(s: State, log: Log, t: Tid, addr: nat, isWrite: bool)
    requires Inv(s, log) && 1 <= t <= s.threadCount
    requires AccessStep(s, t, addr, isWrite).Continue?
    ensures var r := AccessStep(s, t, addr, isWrite); Inv(r.s, log + [r.rec])
  {
    var Continue(s', rec) := AccessStep(s, t, addr, isWrite);
    if rec.RAccess? {
      OwnMonotoneAppend(s, log, s', rec);
      ThreadsStayExact(s, log, s', rec);
      SlotsStayExact(s, log, s', rec);
    } else {
      NoneKeeps(s, log, s');
    }
  }

  lemma {:induction false} OwnMonotoneAppend(s: State, log: Log, s': State, rec: Rec)
    requires Valid(s) && Valid(s') && OwnMonotone(s, log)
    requires rec.RAccess? || rec.RAcquire? || rec.RRelease?
    requires Stamp(rec) == Own(s, rec.tid)
    requires Own(s', rec.tid) >= Own(s, rec.tid) + if rec.RAccess? then 1 else 0
    requires forall t: Tid :: t != rec.tid ==> Own(s', t) == Own(s, t)
    ensures OwnMonotone(s', log + [rec])
  {
    var log' := log + [rec];
    forall i, j | 0 <= i < j < |log'| && SameThread(log'[i], log'[j])
      ensures Stamp(log'[i]) + (if log'[i].RAccess? then 1 else 0) <= Stamp(log'[j])
    {
      if j == |log| { assert ByThread(log[i], rec.tid); }
    }
  }

  /** What any step but an acquire keeps of the thread clocks: it changes no foreign component. */
  lemma {:induction false} ThreadsStayExact(s: State, log: Log, s': State, rec: Rec)
    requires Inv(s, log) && Valid(s') && !rec.RAcquire?
    requires forall t: Tid, u: Tid :: t != u ==> s'.threads[u].vc[t] == s.threads[u].vc[t]
    ensures var log' := log + [rec];
            forall t: Tid, u: Tid :: t != u ==> Exact(log', Seen(log', u), t, s'.threads[u].vc[t])
  {
    var log' := log + [rec];
    SeenAppend(log, rec);
    forall t: Tid, u: Tid | t != u ensures Exact(log', Seen(log', u), t, s'.threads[u].vc[t]) {
      var c := s.threads[u].vc[t];
      assert Exact(log, Seen(log, u), t, c);
      if ByThread(rec, u) {
        ExactNew(log, rec, Seen(log, u), t, c);
      } else {
        ExactAppend(log, rec, Seen(log, u), t, c);
      }
    }
  }

  /** What any step keeps of the slots it does not overwrite. */
  lemma {:induction false} SlotsStayExact(s: State, log: Log, s': State, rec: Rec)
    requires Inv(s, log) && Valid(s')
    requires forall k: nat :: k < MAX_MUTEXES && !Overwrites(rec, k) ==> s'.mutexes[k].vc == s.mutexes[k].vc
    ensures var log' := log + [rec];
            forall t: Tid, k: nat :: k < MAX_MUTEXES && !Overwrites(rec, k) ==>
              Exact(log', SlotSeen(log', k), t, s'.mutexes[k].vc[t])
  {
    var log' := log + [rec];
    SeenAppend(log, rec);
    forall t: Tid, k: nat | k < MAX_MUTEXES && !Overwrites(rec, k)
      ensures Exact(log', SlotSeen(log', k), t, s'.mutexes[k].vc[t])
    {
      ExactAppend(log, rec, SlotSeen(log, k), t, s.mutexes[k].vc[t]);
    }
  }

  /** Steps without a record leave every clock alone. */
  lemma {:induction false} NoneKeeps(s: State, log: Log, s': State)
    requires Inv(s, log) && Valid(s')
    requires s'.threadCount == s.threadCount && s'.threads == s.threads
    requires forall k :: 0 <= k < MAX_MUTEXES ==> s'.mutexes[k].vc == s.mutexes[k].vc
    ensures Inv(s', log + [RNone])
  {
    assert forall t: Tid :: Own(s', t) == Own(s, t);
    ThreadsStayExact(s, log, s', RNone);
    SlotsStayExact(s, log, s', RNone);
  }

  lemma {:induction false} LockKeeps(s: State, log: Log, t: Tid, addr: nat)
    requires Inv(s, log) && 1 <= t <= s.threadCount
    ensures var r := LockStep(s, t, addr); Inv(r.s, log + [r.rec])
  {
    var Continue(s', rec) := LockStep(s, t, addr);
    if rec.RAcquire? {
      OwnMonotoneAppend(s, log, s', rec);
      AcquirerExact(s, log, s', rec);
      SlotsStayExact(s, log, s', rec);
    } else {
      NoneKeeps(s, log, s');
    }
  }

  /** The acquirer joins what the slot has seen to what it has seen itself. */
  lemma {:induction false} AcquirerExact(s: State, log: Log, s': State, rec: Rec)
    requires Inv(s, log) && Valid(s') && rec.RAcquire? && rec.slot < MAX_MUTEXES
    requires s'.threads[rec.tid].vc == Join(s.threads[rec.tid].vc, s.mutexes[rec.slot].vc)
    requires forall u: Tid :: u != rec.tid ==> s'.threads[u].vc == s.threads[u].vc
    ensures var log' := log + [rec];
            forall t: Tid, u: Tid :: t != u ==> Exact(log', Seen(log', u), t, s'.threads[u].vc[t])
  {
    var log', k := log + [rec], rec.slot;
    SeenAppend(log, rec);
    forall t: Tid, u: Tid | t != u ensures Exact(log', Seen(log', u), t, s'.threads[u].vc[t]) {
      var c := s.threads[u].vc[t];
      assert Exact(log, Seen(log, u), t, c);
      if u == rec.tid {
        ExactNew(log, rec, Seen(log, u), t, c);
        ExactAppend(log, rec, SlotSeen(log, k), t, s.mutexes[k].vc[t]);
        ExactUnion(log', Seen(log, u) + {|log|}, SlotSeen(log, k), t, c, s.mutexes[k].vc[t]);
      } else {
        ExactAppend(log, rec, Seen(log, u), t, c);
      }
    }
  }

  lemma {:induction false} UnlockKeeps(s: State, log: Log, t: Tid, addr: nat)
    requires Inv(s, log) && 1 <= t <= s.threadCount
    ensures var r := UnlockStep(s, t, addr); Inv(r.s, log + [r.rec])
  {
    var Continue(s', rec) := UnlockStep(s, t, addr);
    if rec.RRelease? {
      OwnMonotoneAppend(s, log, s', rec);
      ThreadsStayExact(s, log, s', rec);
      SlotsStayExact(s, log, s', rec);
      ReleasedSlotExact(s, log, s', rec);
    } else {
      NoneKeeps(s, log, s');
    }
  }

  /** The slot takes over what the releaser has seen; the releaser's own component in it comes
      from this very release. */
  lemma {:induction false} ReleasedSlotExact(s: State, log: Log, s': State, rec: Rec)
    requires Inv(s, log) && Valid(s') && rec.RRelease? && rec.slot < MAX_MUTEXES
    requires rec.before == s.threads[rec.tid].vc && s'.mutexes[rec.slot].vc == Inc(rec.before, rec.tid)
    ensures var log' := log + [rec];
            forall t: Tid :: Exact(log', SlotSeen(log', rec.slot), t, s'.mutexes[rec.slot].vc[t])
  {
    var log' := log + [rec];
    SeenAppend(log, rec);
    forall t: Tid ensures Exact(log', SlotSeen(log', rec.slot), t, s'.mutexes[rec.slot].vc[t]) {
      if t == rec.tid {
        ReleaseExact(s, log, rec, t);
      } else {
        assert Exact(log, Seen(log, rec.tid), t, s.threads[rec.tid].vc[t]);
        ExactNew(log, rec, Seen(log, rec.tid), t, s.threads[rec.tid].vc[t]);
      }
    }
  }

  lemma {:induction false} ReleaseExact(s: State, log: Log, rec: Rec, t: Tid)
    requires Inv(s, log) && rec.RRelease? && rec.tid == t && rec.before == s.threads[t].vc
    ensures Exact(log + [rec], Seen(log, t) + {|log|}, t, Own(s, t) + 1)
  {
    var log' := log + [rec];
    assert ReleaseBy(log', |log|, t) && log'[|log|] == rec;
    forall i | i in Seen(log, t) && ReleaseBy(log', i, t) ensures Stamp(log'[i]) <= Own(s, t) {
      assert ByThread(log[i], t);
    }
  }

  lemma {:induction false} CreateKeeps(s: State, log: Log, addr: nat)
    requires Inv(s, log)
    ensures var r := CreateStep(s, addr); Inv(r.s, log + [r.rec])
  {
    var Continue(s', rec) := CreateStep(s, addr);
    if rec.RCreate? {
      assert forall t: Tid :: Own(s', t) == Own(s, t);
      SeenAppend(log, rec);
      ThreadsStayExact(s, log, s', rec);
      SlotsStayExact(s, log, s', rec);
    } else {
      NoneKeeps(s, log, s');
    }
  }

  lemma {:induction false} OpKeeps(s: State, log: Log, t: Tid, op: Op)
    requires Inv(s, log) && 1 <= t <= s.threadCount && OpStep(s, t, op).Continue?
    ensures Inv(OpStep(s, t, op).s, log + [OpStep(s, t, op).rec])
  {
    match op
    case FuncEntry => NoneKeeps(s, log, s);
    case Access(addr, isWrite) => AccessKeeps(s, log, t, addr, isWrite);
    case PostLock(addr) => LockKeeps(s, log, t, addr);
    case PostUnlock(addr) => UnlockKeeps(s, log, t, addr);
  }

  lemma {:induction false} StepKeeps(s: State, log: Log, e: Event)
    requires Inv(s, log) && Step(s, e).Continue?
    ensures Inv(Step(s, e).s, log + [Step(s, e).rec])
  {
    match e
    case Create(addr) => CreateKeeps(s, log, addr);
    case Destroy(addr) => NoneKeeps(s, log, DestroyStep(s, addr).s);
    case By(o, op) =>
      RegisterKeeps(s, log, o);
      var s' := Registered(s, o).value;
      OpKeeps(s', log, s'.tidOf[o], op);
  }

  lemma {:induction false} RunKeeps(es: seq<Event>)
    requires Run(es).Running?
    ensures Inv(Run(es).s, Run(es).log)
    decreases |es|
  {
    if es != [] {
      RunKeeps(es[..|es| - 1]);
      var Running(s, log) := Run(es[..|es| - 1]);
      StepKeeps(s, log, es[|es| - 1]);
    }
  }

  // ----- theorems over every run -----

  /** Vector clocks capture happens-before exactly: an access of `t` stamped `c`
      happens before the present of another thread `u` if and only if u's
      component for t is at least c + 2. */
  lemma {:induction false} ClockCapturesHB(es: seq<Event>, i: nat, t: Tid, u: Tid)
    requires Run(es).Running? && i < |es| && t != u
    requires Run(es).log[i].RAccess? && Run(es).log[i].tid == t
    ensures HBPresent(Run(es).log, i, u) <==> Run(es).s.threads[u].vc[t] >= Stamp(Run(es).log[i]) + 2
  {
    RunKeeps(es);
    SeenIsHB(Run(es).log, i);
    SeenIffTwoAhead(Run(es).s, Run(es).log, i, t, u);
  }

  lemma {:induction false} SeenIffTwoAhead(s: State, log: Log, i: nat, t: Tid, u: Tid)
    requires Inv(s, log) && i < |log| && t != u && log[i].RAccess? && log[i].tid == t
    ensures i in Seen(log, u) <==> s.threads[u].vc[t] >= Stamp(log[i]) + 2
  {
    var c := Stamp(log[i]);
    assert ByThread(log[i], t);
    assert Exact(log, Seen(log, u), t, s.threads[u].vc[t]);
    if i in Seen(log, u) {
      SeenThroughRelease(log, i, t);
      var r :| i <= r < |log| && r in Seen(log, u) && log[r].RRelease? && log[r].tid == t;
      assert SameThread(log[i], log[r]) && ReleaseBy(log, r, t);
    }
    if s.threads[u].vc[t] >= c + 2 {
      var r :| r in Seen(log, u) && ReleaseBy(log, r, t) && Stamp(log[r]) + 1 == s.threads[u].vc[t];
      assert i < r by {
        if r < i { assert SameThread(log[r], log[i]); }
      }
      assert ByThread(log[r], t);
      SeenDownward(log, i, r, t);
    }
  }

  /** The exact meaning of a foreign component, for threads: the largest (stamp + 1) of the
      releases by `t` that happen before u's present, or 0 when there is none. */
  lemma {:induction false} ComponentIsLatestRelease(es: seq<Event>, t: Tid, u: Tid)
    requires Run(es).Running? && t != u
    ensures var log, c := Run(es).log, Run(es).s.threads[u].vc[t];
            && (forall i: nat :: i < |log| && ReleaseBy(log, i, t) && HBPresent(log, i, u) ==> Stamp(log[i]) + 1 <= c)
            && (c == 0 || exists i: nat ::
                            i < |log| && ReleaseBy(log, i, t) && HBPresent(log, i, u) && Stamp(log[i]) + 1 == c)
  {
    var Running(s, log) := Run(es);
    RunKeeps(es);
    forall i: nat | i < |log| ensures i in Seen(log, u) <==> HBPresent(log, i, u) {
      SeenIsHB(log, i);
    }
    assert Exact(log, Seen(log, u), t, s.threads[u].vc[t]);
  }

  /** No thread or mutex clock leads its owner by more than one, and one that does lead it
      stems from a release since which `t` has recorded no access. */
  lemma {:induction false} NoClockLeadsByMoreThanOne(es: seq<Event>, t: Tid, c: nat)
    requires Run(es).Running?
    requires (exists u: Tid :: c == Run(es).s.threads[u].vc[t])
          || (exists k: nat :: k < MAX_MUTEXES && c == Run(es).s.mutexes[k].vc[t])
    ensures c <= Own(Run(es).s, t) + 1
    ensures c == Own(Run(es).s, t) + 1 ==>
              exists r: nat :: ReleaseBy(Run(es).log, r, t) && Stamp(Run(es).log[r]) == Own(Run(es).s, t)
                && forall j: nat :: r < j < |es| ==> !(Run(es).log[j].RAccess? && Run(es).log[j].tid == t)
  {
    var Running(s, log) := Run(es);
    RunKeeps(es);
    var S: set<nat>;
    if u: Tid :| c == s.threads[u].vc[t] {
      if u == t {
        return;
      }
      S := Seen(log, u);
    } else {
      var k: nat :| k < MAX_MUTEXES && c == s.mutexes[k].vc[t];
      S := SlotSeen(log, k);
    }
    ComponentStemsFromRelease(s, log, S, t, c);
  }

  lemma {:induction false} ComponentStemsFromRelease(s: State, log: Log, S: set<nat>, t: Tid, c: nat)
    requires Inv(s, log) && Exact(log, S, t, c)
    ensures c <= Own(s, t) + 1
    ensures c == Own(s, t) + 1 ==>
              exists r: nat :: ReleaseBy(log, r, t) && Stamp(log[r]) == Own(s, t)
                && forall j: nat :: r < j < |log| ==> !(log[j].RAccess? && log[j].tid == t)
  {
    if c > Own(s, t) {
      var r :| r in S && ReleaseBy(log, r, t) && Stamp(log[r]) + 1 == c;
      assert ByThread(log[r], t);
      forall j: nat | r < j < |log| ensures !(log[j].RAccess? && log[j].tid == t) {
        if log[j].RAccess? && log[j].tid == t {
          assert SameThread(log[r], log[j]) && ByThread(log[j], t);
        }
      }
    }
  }

  /** Thread slot 0 stays silent: real thread ids are 1..63, slot 0's clock is zero, and
      component 0 of every clock is zero. */
  lemma {:induction false} SlotZeroIsSilent(es: seq<Event>)
    requires Run(es).Running?
    ensures var s := Run(es).s;
            && (forall o :: o in s.tidOf ==> 1 <= s.tidOf[o] < MAX_THREADS)
            && (forall o, p :: o in s.tidOf && p in s.tidOf && o != p ==> s.tidOf[o] != s.tidOf[p])
            && (forall t: Tid :: s.threads[0].vc[t] == 0 && s.threads[t].vc[0] == 0)
            && (forall k :: 0 <= k < MAX_MUTEXES ==> s.mutexes[k].vc[0] == 0)
  {
    var Running(s, log) := Run(es);
    RunKeeps(es);
    assert forall i :: 0 <= i < |log| ==> !ByThread(log[i], 0);
    SeenOnlyOwn(log, 0);
    OwnZero(es);
    forall i: nat ensures !ReleaseBy(log, i, 0) {
      if ReleaseBy(log, i, 0) { assert ByThread(log[i], 0); }
    }
    forall t: Tid ensures s.threads[0].vc[t] == 0 && s.threads[t].vc[0] == 0 {
      if t != 0 {
        assert Exact(log, Seen(log, 0), t, s.threads[0].vc[t]);
        assert Exact(log, Seen(log, t), 0, s.threads[t].vc[0]);
      }
    }
    forall k: nat | k < MAX_MUTEXES ensures s.mutexes[k].vc[0] == 0 {
      assert Exact(log, SlotSeen(log, k), 0, s.mutexes[k].vc[0]);
    }
  }

  lemma {:induction false} OwnZero(es: seq<Event>)
    requires Run(es).Running?
    ensures Run(es).s.threads[0].vc[0] == 0
    decreases |es|
  {
    if es != [] {
      OwnZero(es[..|es| - 1]);
      StepSparesThreadZero(Run(es[..|es| - 1]).s, es[|es| - 1]);
    }
  }

  lemma StepSparesThreadZero(s: State, e: Event)
    requires Valid(s) && Step(s, e).Continue?
    ensures Step(s, e).s.threads[0] == s.threads[0]
  {
    match e
    case Create(addr) => assert CreateStep(s, addr).s.threads == s.threads;
    case Destroy(addr) => assert DestroyStep(s, addr).s.threads == s.threads;
    case By(o, op) =>
      var s' := Registered(s, o).value;
      assert s'.threads[0] == s.threads[0];
      OpTouchesOwnThread(s', s'.tidOf[o], op);
  }

  /** An operation changes no thread's clock but the acting one's. */
  lemma OpTouchesOwnThread(s: State, t: Tid, op: Op)
    requires Valid(s) && 1 <= t <= s.threadCount && OpStep(s, t, op).Continue?
    ensures forall u: Tid :: u != t ==> OpStep(s, t, op).s.threads[u] == s.threads[u]
  {
    match op
    case FuncEntry =>
    case Access(addr, isWrite) =>
    case PostLock(addr) =>
    case PostUnlock(addr) =>
  }

  // ----- no clock can wrap in a run of fewer than 2^64 - 2 events -----

  lemma {:induction false} OwnGrowsByOne(s: State, log: Log, a: Tid, op: Op, t: Tid)
    requires Inv(s, log) && 1 <= a <= s.threadCount && OpStep(s, a, op).Continue?
    ensures Own(OpStep(s, a, op).s, t) <= Own(s, t) + 1
  {
    var rec := OpStep(s, a, op).rec;
    if rec.RAcquire? && a == t {
      var c := s.mutexes[rec.slot].vc[t];
      assert Exact(log, SlotSeen(log, rec.slot), t, c);
      forall r: nat | ReleaseBy(log, r, t) ensures Stamp(log[r]) <= Own(s, t) {
        assert ByThread(log[r], t);
      }
    }
  }

  /** A component is at most the number of events so far plus two, so 64 bits hold it in
      every run of fewer than 2^64 - 2 events. */
  lemma {:induction false} ClocksStaySmall(es: seq<Event>, t: Tid)
    requires Run(es).Running?
    ensures forall u: Tid :: Run(es).s.threads[u].vc[t] <= |es| + 2
    ensures forall k :: 0 <= k < MAX_MUTEXES ==> Run(es).s.mutexes[k].vc[t] <= |es| + 2
  {
    OwnStaysSmall(es, t);
    forall u: Tid ensures Run(es).s.threads[u].vc[t] <= |es| + 2 {
      NoClockLeadsByMoreThanOne(es, t, Run(es).s.threads[u].vc[t]);
    }
    forall k | 0 <= k < MAX_MUTEXES ensures Run(es).s.mutexes[k].vc[t] <= |es| + 2 {
      NoClockLeadsByMoreThanOne(es, t, Run(es).s.mutexes[k].vc[t]);
    }
  }

  lemma {:induction false} OwnStaysSmall(es: seq<Event>, t: Tid)
    requires Run(es).Running?
    ensures Own(Run(es).s, t) <= |es| + 1
    decreases |es|
  {
    if es != [] {
      OwnStaysSmall(es[..|es| - 1], t);
      RunKeeps(es[..|es| - 1]);
      StepGrowsByOne(Run(es[..|es| - 1]).s, Run(es[..|es| - 1]).log, es[|es| - 1], t, |es|);
    }
  }

  lemma {:induction false} StepGrowsByOne(s: State, log: Log, e: Event, t: Tid, n: nat)
    requires Inv(s, log) && Step(s, e).Continue? && 1 <= n && Own(s, t) <= n
    ensures Own(Step(s, e).s, t) <= n + 1
  {
    match e
    case Create(addr) => assert CreateStep(s, addr).s.threads == s.threads;
    case Destroy(addr) => assert DestroyStep(s, addr).s.threads == s.threads;
    case By(o, op) =>
      var s1 := Registered(s, o).value;
      RegisterKeeps(s, log, o);
      assert Own(s1, t) <= n;
      OwnGrowsByOne(s1, log, s1.tidOf[o], op, t);
  }

  // ----- the own component counts accesses, when locking follows the protocol -----

  function AccessCount(log: Log, t: nat): nat {
    if log == [] then 0
    else AccessCount(log[..|log| - 1], t) +
         if log[|log| - 1].RAccess? && log[|log| - 1].tid == t then 1 else 0
  }

  /** Every acquire by `t` follows a recorded access by `t` with no release by `t` in between. */
  ghost predicate AccessBeforeAcquire(log: Log, t: nat) {
    forall j :: 0 <= j < |log| && log[j].RAcquire? && log[j].tid == t ==>
      exists i :: 0 <= i < j && log[i].RAccess? && log[i].tid == t
        && forall k: nat :: i < k < j ==> !ReleaseBy(log, k, t)
  }

  lemma {:induction false} AccessBeforeAcquirePrefix(log: Log, r: Rec, t: nat)
    requires AccessBeforeAcquire(log + [r], t)
    ensures AccessBeforeAcquire(log, t)
  {
    var log' := log + [r];
    assert forall i :: 0 <= i < |log| ==> log'[i] == log[i];
    forall j | 0 <= j < |log| && log[j].RAcquire? && log[j].tid == t
      ensures exists i :: 0 <= i < j && log[i].RAccess? && log[i].tid == t
                && forall k: nat :: i < k < j ==> !ReleaseBy(log, k, t)
    {
      assert log'[j].RAcquire? && log'[j].tid == t;
      var i :| 0 <= i < j && log'[i].RAccess? && log'[i].tid == t
               && forall k: nat :: i < k < j ==> !ReleaseBy(log', k, t);
      assert log[i].RAccess? && forall k: nat :: i < k < j ==> (ReleaseBy(log, k, t) <==> ReleaseBy(log', k, t));
    }
  }

  ghost predicate Counts(s: State, log: Log, t: Tid)
    requires Valid(s)
  {
    Own(s, t) == AccessCount(log, t) + if t <= s.threadCount then 1 else 0
  }

  /** Then a thread's own component is 1 plus the number of its recorded accesses. */
  lemma {:induction false} OwnCountsAccesses(es: seq<Event>, t: Tid)
    requires Run(es).Running? && 1 <= t <= Run(es).s.threadCount
    requires AccessBeforeAcquire(Run(es).log, t)
    ensures Own(Run(es).s, t) == 1 + AccessCount(Run(es).log, t)
  {
    RunCounts(es, t);
  }

  lemma {:induction false} RunCounts(es: seq<Event>, t: Tid)
    requires Run(es).Running? && 1 <= t && AccessBeforeAcquire(Run(es).log, t)
    ensures Counts(Run(es).s, Run(es).log, t)
    decreases |es|
  {
    if es != [] {
      var es0, e := es[..|es| - 1], es[|es| - 1];
      var Running(s, log) := Run(es0);
      AccessBeforeAcquirePrefix(log, Step(s, e).rec, t);
      RunCounts(es0, t);
      RunKeeps(es0);
      StepCounts(s, log, e, t);
    }
  }

  lemma {:induction false} StepCounts(s: State, log: Log, e: Event, t: Tid)
    requires Inv(s, log) && 1 <= t && Step(s, e).Continue? && Counts(s, log, t)
    requires AccessBeforeAcquire(log + [Step(s, e).rec], t)
    ensures Counts(Step(s, e).s, log + [Step(s, e).rec], t)
  {
    var Continue(s', rec) := Step(s, e);
    assert (log + [rec])[..|log|] == log;
    match e
    case Create(addr) => assert CreateStep(s, addr).s.threads == s.threads;
    case Destroy(addr) => assert DestroyStep(s, addr).s.threads == s.threads;
    case By(o, op) =>
      var s1 := Registered(s, o).value;
      RegisterKeeps(s, log, o);
      RegisterCounts(s, log, o, t);
      OwnAfterOp(s1, log, s1.tidOf[o], op, t);
      OpKeepsCount(s1, s1.tidOf[o], op);
  }

  lemma {:induction false} RegisterCounts(s: State, log: Log, o: nat, t: Tid)
    requires Inv(s, log) && 1 <= t && Registered(s, o).Some? && Counts(s, log, t)
    ensures Counts(Registered(s, o).value, log, t)
  {
    if t > s.threadCount {
      assert forall i :: 0 <= i < |log| ==> !ByThread(log[i], t);
      NoAccesses(log, t);
    }
  }

  lemma {:induction false} NoAccesses(log: Log, t: nat)
    requires forall i :: 0 <= i < |log| ==> !ByThread(log[i], t)
    ensures AccessCount(log, t) == 0
  {
    if log != [] { NoAccesses(log[..|log| - 1], t); }
  }

  lemma {:induction false} OwnAfterOp(s: State, log: Log, a: Tid, op: Op, t: Tid)
    requires Inv(s, log) && 1 <= a <= s.threadCount
    requires OpStep(s, a, op).Continue? && AccessBeforeAcquire(log + [OpStep(s, a, op).rec], t)
    ensures var r := OpStep(s, a, op);
            Own(r.s, t) == Own(s, t) + if r.rec.RAccess? && r.rec.tid == t then 1 else 0
  {
    var Continue(s', rec) := OpStep(s, a, op);
    var log', n := log + [rec], |log|;
    if rec.RAcquire? && rec.tid == t {
      var c := s.mutexes[rec.slot].vc[t];
      assert log'[n] == rec;
      var i :| 0 <= i < n && log'[i].RAccess? && log'[i].tid == t
               && forall k: nat :: i < k < n ==> !ReleaseBy(log', k, t);
      assert ByThread(log[i], t);
      assert Exact(log, SlotSeen(log, rec.slot), t, c);
      forall r | r in SlotSeen(log, rec.slot) && ReleaseBy(log, r, t) ensures Stamp(log[r]) + 1 <= Own(s, t) {
        assert ReleaseBy(log', r, t) && r != i;
        assert SameThread(log[r], log[i]);
      }
    }
  }
}
