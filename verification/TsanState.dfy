/** The state of the ThreadSanitizer runtime and the effect of each of its
    operations. Every operation body runs under the runtime's spin lock, so a
    run is a sequence of these atomic steps. */
module TsanState {
  import opened Common
  import opened ProbeTable

  const MAX_THREADS: nat := 64
  const MAX_MUTEXES: nat := 1024
  const SHADOW_ENTRIES: nat := 65536

  type Clock = c: seq<nat> | |c| == MAX_THREADS witness seq(MAX_THREADS, i => 0)

  function ZeroClock(): (z: Clock)
    ensures forall i :: 0 <= i < MAX_THREADS ==> z[i] == 0
  {
    seq(MAX_THREADS, i => 0)
  }

  type Tid = t: nat | t < MAX_THREADS

  datatype Thread = Thread(tid: int, vc: Clock, active: bool)
  datatype Shadow = Shadow(addr: nat, vc: Clock, tid: nat, isWrite: bool, active: bool)
  datatype Mutex = Mutex(addr: nat, vc: Clock, ownerTid: int, active: bool)

  /** Zero-initialised static storage. */
  const BLANK_THREAD := Thread(0, ZeroClock(), false)
  const BLANK_SHADOW := Shadow(0, ZeroClock(), 0, false, false)
  const BLANK_MUTEX := Mutex(0, ZeroClock(), 0, false)

  /** `tidOf` collects the thread-local `tsan_current_tid` of every operating
      system thread that has one. */
  datatype State = State(
    threads: seq<Thread>,
    shadow: seq<Shadow>,
    mutexes: seq<Mutex>,
    threadCount: nat,
    tidOf: map<nat, nat>)

  ghost predicate Valid(s: State) {
    && |s.threads| == MAX_THREADS && |s.shadow| == SHADOW_ENTRIES && |s.mutexes| == MAX_MUTEXES
    && s.threadCount < MAX_THREADS
    && (forall o :: o in s.tidOf ==> 1 <= s.tidOf[o] <= s.threadCount)
    && (forall o, p :: o in s.tidOf && p in s.tidOf && s.tidOf[o] == s.tidOf[p] ==> o == p)
    && (forall k :: 0 <= k < SHADOW_ENTRIES ==> s.shadow[k].tid <= s.threadCount)
    && (forall k :: 0 <= k < SHADOW_ENTRIES && !s.shadow[k].active ==> s.shadow[k].tid == 0 && !s.shadow[k].isWrite)
  }

  function Initial(): State {
    State(
      seq(MAX_THREADS, i => BLANK_THREAD),
      seq(SHADOW_ENTRIES, i => BLANK_SHADOW),
      seq(MAX_MUTEXES, i => BLANK_MUTEX),
      0,
      map[])
  }

  // ----- clocks -----

  function Inc(vc: Clock, t: nat): Clock
    requires t < MAX_THREADS
  {
    vc[t := vc[t] + 1]
  }

  function Join(a: Clock, b: Clock): (r: Clock)
    ensures forall i :: 0 <= i < MAX_THREADS ==> r[i] == if b[i] > a[i] then b[i] else a[i]
  {
    seq(MAX_THREADS, i requires 0 <= i < MAX_THREADS => if b[i] > a[i] then b[i] else a[i])
  }

  /** The epoch test the runtime uses for "a happens before b": one component only. */
  predicate EpochBefore(a: Clock, b: Clock, t: nat)
    requires t < MAX_THREADS
  {
    a[t] <= b[t]
  }

  // ----- tables -----

  function ShadowHash(addr: nat): (h: nat)
    ensures h < SHADOW_ENTRIES
  {
    var p := Xor(addr, addr / 0x10000);
    Xor(p, p / 0x100) % SHADOW_ENTRIES
  }

  function MutexHash(addr: nat): (h: nat)
    ensures h < MAX_MUTEXES
  {
    (addr / WORD_SIZE) % MAX_MUTEXES
  }

  function ShadowKey(e: Shadow): Option<nat> {
    if e.active then Some(e.addr) else None
  }

  function MutexKey(e: Mutex): Option<nat> {
    if e.active then Some(e.addr) else None
  }

  function ShadowKeys(sh: seq<Shadow>): (ks: Keys)
    ensures |ks| == |sh|
    ensures forall i :: 0 <= i < |sh| ==> ks[i] == ShadowKey(sh[i])
  {
    seq(|sh|, i requires 0 <= i < |sh| => ShadowKey(sh[i]))
  }

  function MutexKeys(ms: seq<Mutex>): (ks: Keys)
    ensures |ks| == |ms|
    ensures forall i :: 0 <= i < |ms| ==> ks[i] == MutexKey(ms[i])
  {
    seq(|ms|, i requires 0 <= i < |ms| => MutexKey(ms[i]))
  }

  function FindShadow(s: State, addr: nat): (r: Option<nat>)
    requires Valid(s)
    ensures r.Some? ==> r.value < SHADOW_ENTRIES
  {
    Probe(ShadowKeys(s.shadow), ShadowHash(addr), addr, true)
  }

  function FindMutex(s: State, addr: nat, alloc: bool): (r: Option<nat>)
    requires Valid(s)
    ensures r.Some? ==> r.value < MAX_MUTEXES
  {
    Probe(MutexKeys(s.mutexes), MutexHash(addr), addr, alloc)
  }

  // ----- steps -----

  datatype Op = FuncEntry | Access(addr: nat, isWrite: bool) | PostLock(addr: nat) | PostUnlock(addr: nat)

  /** An operation by an operating system thread, or one of the two that no
      thread id takes part in. */
  datatype Event = By(os: nat, op: Op) | Create(addr: nat) | Destroy(addr: nat)

  /** What a step did, with names resolved: thread ids instead of operating
      system threads, table slots instead of mutex addresses, and the acting
      thread's clock just before the step. */
  datatype Rec =
    | RAccess(tid: Tid, addr: nat, isWrite: bool, before: Clock)
    | RAcquire(tid: Tid, slot: nat, before: Clock)
    | RRelease(tid: Tid, slot: nat, before: Clock)
    | RCreate(slot: nat)
    | RNone

  datatype Report = Report(addr: nat, tid: nat, isWrite: bool, otherTid: nat, otherWrite: bool)

  datatype Outcome = Continue(s: State, rec: Rec) | Race(report: Report) | TooManyThreads

  /** `tsan_get_tid`: the first call of a thread takes the next thread id. */
  function Registered(s: State, o: nat): (r: Option<State>)
    requires Valid(s)
    ensures r.Some? ==> Valid(r.value) && o in r.value.tidOf
    ensures r.None? <==> o !in s.tidOf && s.threadCount + 1 >= MAX_THREADS
  {
    if o in s.tidOf then Some(s)
    else
      var t := s.threadCount + 1;
      if t >= MAX_THREADS then None
      else Some(State(s.threads[t := Thread(t, Inc(ZeroClock(), t), true)],
                      s.shadow, s.mutexes, t, s.tidOf[o := t]))
  }

  function WithClock(s: State, t: nat, vc: Clock): State
    requires t < |s.threads|
  {
    s.(threads := s.threads[t := Thread(s.threads[t].tid, vc, s.threads[t].active)])
  }

  function WithMutex(s: State, k: nat, m: Mutex): State
    requires k < |s.mutexes|
  {
    s.(mutexes := s.mutexes[k := m])
  }

  predicate Races(s: State, e: Shadow, t: nat, isWrite: bool)
    requires Valid(s) && e.tid < MAX_THREADS && t < MAX_THREADS
  {
    && e.tid != t
    && (isWrite || e.isWrite)
    && !EpochBefore(s.threads[e.tid].vc, s.threads[t].vc, e.tid)
    && !EpochBefore(s.threads[t].vc, s.threads[e.tid].vc, t)
  }

  function AccessStep(s: State, t: nat, addr: nat, isWrite: bool): (r: Outcome)
    requires Valid(s) && 1 <= t <= s.threadCount
    ensures r.Continue? ==> Valid(r.s)
  {
    match FindShadow(s, addr)
    case None => Continue(s, RNone)
    case Some(k) =>
      if Races(s, s.shadow[k], t, isWrite)
      then Race(Report(addr, t, isWrite, s.shadow[k].tid, s.shadow[k].isWrite))
      else
        var vc := s.threads[t].vc;
        var s' := s.(shadow := s.shadow[k := Shadow(addr, vc, t, isWrite, true)]);
        Continue(WithClock(s', t, Inc(vc, t)), RAccess(t, addr, isWrite, vc))
  }

  function LockStep(s: State, t: nat, addr: nat): (r: Outcome)
    requires Valid(s) && 1 <= t <= s.threadCount
    ensures r.Continue? && Valid(r.s)
  {
    match FindMutex(s, addr, false)
    case None => Continue(s, RNone)
    case Some(k) =>
      var vc, m := s.threads[t].vc, s.mutexes[k];
      var s' := WithClock(s, t, Join(vc, m.vc));
      Continue(WithMutex(s', k, m.(ownerTid := t)), RAcquire(t, k, vc))
  }

  function UnlockStep(s: State, t: nat, addr: nat): (r: Outcome)
    requires Valid(s) && 1 <= t <= s.threadCount
    ensures r.Continue? && Valid(r.s)
  {
    match FindMutex(s, addr, false)
    case None => Continue(s, RNone)
    case Some(k) =>
      var vc := s.threads[t].vc;
      Continue(WithMutex(s, k, s.mutexes[k].(vc := Inc(vc, t))), RRelease(t, k, vc))
  }

  function CreateStep(s: State, addr: nat): (r: Outcome)
    requires Valid(s)
    ensures r.Continue? && Valid(r.s)
  {
    match FindMutex(s, addr, true)
    case None => Continue(s, RNone)
    case Some(k) => Continue(WithMutex(s, k, Mutex(addr, ZeroClock(), -1, true)), RCreate(k))
  }

  function DestroyStep(s: State, addr: nat): (r: Outcome)
    requires Valid(s)
    ensures r.Continue? && Valid(r.s)
  {
    match FindMutex(s, addr, false)
    case None => Continue(s, RNone)
    case Some(k) => Continue(WithMutex(s, k, s.mutexes[k].(active := false)), RNone)
  }

  function OpStep(s: State, t: nat, op: Op): (r: Outcome)
    requires Valid(s) && 1 <= t <= s.threadCount
    ensures r.Continue? ==> Valid(r.s)
  {
    match op
    case FuncEntry => Continue(s, RNone)
    case Access(addr, isWrite) => AccessStep(s, t, addr, isWrite)
    case PostLock(addr) => LockStep(s, t, addr)
    case PostUnlock(addr) => UnlockStep(s, t, addr)
  }

  function Step(s: State, e: Event): (r: Outcome)
    requires Valid(s)
    ensures r.Continue? ==> Valid(r.s)
  {
    match e
    case Create(addr) => CreateStep(s, addr)
    case Destroy(addr) => DestroyStep(s, addr)
    case By(o, op) =>
      match Registered(s, o)
      case None => TooManyThreads
      case Some(s') => OpStep(s', s'.tidOf[o], op)
  }

  /** The range entry points: one access per byte, up to the first that does not continue. */
  function RangeStep(s: State, o: nat, a: nat, e: nat, isWrite: bool): (r: Outcome)
    requires Valid(s)
    ensures r.Continue? ==> Valid(r.s)
    decreases e - a
  {
    if a >= e then Continue(s, RNone)
    else
      match Step(s, By(o, Access(a, isWrite)))
      case Continue(s', _) => RangeStep(s', o, a + 1, e, isWrite)
      case other => other
  }

  // ----- runs -----

  type Log = seq<Rec>

  datatype Result = Running(s: State, log: Log) | Stopped

  /** The runtime after a sequence of events; a report or an exhausted thread
      table stops it for good. */
  function Run(es: seq<Event>): (r: Result)
    ensures r.Running? ==> Valid(r.s) && |r.log| == |es|
  {
    if es == [] then Running(Initial(), [])
    else
      match Run(es[..|es| - 1])
      case Stopped => Stopped
      case Running(s, log) =>
        match Step(s, es[|es| - 1])
        case Continue(s', rec) => Running(s', log + [rec])
        case _ => Stopped
  }

  /** The events of a range operation. */
  function RangeEvents(o: nat, a: nat, e: nat, isWrite: bool): (es: seq<Event>)
    ensures |es| == if a < e then e - a else 0
    ensures forall i :: 0 <= i < |es| ==> es[i] == By(o, Access(a + i, isWrite))
    decreases e - a
  {
    if a >= e then [] else [By(o, Access(a, isWrite))] + RangeEvents(o, a + 1, e, isWrite)
  }

  lemma {:induction false} RangeEventsSplit(es: seq<Event>, o: nat, a: nat, e: nat, isWrite: bool)
    requires a < e
    ensures es + RangeEvents(o, a, e, isWrite) == (es + [By(o, Access(a, isWrite))]) + RangeEvents(o, a + 1, e, isWrite)
  {
  }

  lemma {:induction false} StoppedStays(es: seq<Event>, more: seq<Event>)
    requires Run(es).Stopped?
    ensures Run(es + more).Stopped?
    decreases |more|
  {
    if more == [] {
      assert es + more == es;
    } else {
      StoppedStays(es, more[..|more| - 1]);
      assert (es + more)[..|es + more| - 1] == es + more[..|more| - 1];
    }
  }

  /** The last event of a run takes one more step, or stops it. */
  lemma {:induction false} RunStep(es: seq<Event>)
    requires es != [] && Run(es[..|es| - 1]).Running?
    ensures var n := |es| - 1;
            var r, run := Step(Run(es[..n]).s, es[n]), Run(es);
            && (r.Continue? <==> run.Running?)
            && (r.Continue? ==> run.s == r.s && run.log == Run(es[..n]).log + [r.rec])
  {
  }

  /** A range operation is its accesses one after the other: it continues if and only if they all do. */
  lemma {:induction false} RangeIsRun(es: seq<Event>, o: nat, a: nat, e: nat, isWrite: bool)
    requires Run(es).Running?
    ensures var r, run := RangeStep(Run(es).s, o, a, e, isWrite), Run(es + RangeEvents(o, a, e, isWrite));
            (r.Continue? <==> run.Running?) && (r.Continue? ==> run.s == r.s)
    decreases e - a
  {
    var all := es + RangeEvents(o, a, e, isWrite);
    if a >= e {
      assert all == es;
    } else {
      var es1, rest := es + [By(o, Access(a, isWrite))], RangeEvents(o, a + 1, e, isWrite);
      assert es1[..|es|] == es;
      RunStep(es1);
      RangeEventsSplit(es, o, a, e, isWrite);
      RangeContinues(es, es1, rest, all, o, a, e, isWrite);
    }
  }

  lemma {:induction false} RangeContinues(es: seq<Event>, es1: seq<Event>, rest: seq<Event>, all: seq<Event>,
                                          o: nat, a: nat, e: nat, isWrite: bool)
    requires Run(es).Running? && a < e && all == es1 + rest && rest == RangeEvents(o, a + 1, e, isWrite)
    requires var r := Step(Run(es).s, By(o, Access(a, isWrite)));
             (r.Continue? <==> Run(es1).Running?) && (r.Continue? ==> Run(es1).s == r.s)
    ensures var r := RangeStep(Run(es).s, o, a, e, isWrite);
            (r.Continue? <==> Run(all).Running?) && (r.Continue? ==> Run(all).s == r.s)
    decreases e - a, 0
  {
    if Run(es1).Running? {
      RangeIsRun(es1, o, a + 1, e, isWrite);
    } else {
      StoppedStays(es1, rest);
    }
  }

  /** All states of a run, from the initial one to the last. */
  function History(es: seq<Event>): (h: seq<State>)
    requires Run(es).Running?
    ensures |h| == |es| + 1
  {
    if es == [] then [Initial()] else History(es[..|es| - 1]) + [Run(es).s]
  }

  lemma {:induction false} LastStep(es: seq<Event>)
    requires es != [] && Run(es).Running?
    ensures var n := |es| - 1;
            && Run(es[..n]).Running? && Run(es[..n]).log == Run(es).log[..n]
            && Step(Run(es[..n]).s, es[n]) == Continue(Run(es).s, Run(es).log[n])
  {
    RunStep(es);
  }

  lemma {:induction false} RunPrefix(es: seq<Event>, n: nat)
    requires Run(es).Running? && n <= |es|
    ensures Run(es[..n]).Running? && Run(es[..n]).log == Run(es).log[..n]
    decreases |es|
  {
    if n == |es| {
      assert es[..n] == es;
    } else {
      var es0 := es[..|es| - 1];
      LastStep(es);
      RunPrefix(es0, n);
      assert es0[..n] == es[..n];
      PrefixOfPrefix(Run(es).log, |es0|, n);
    }
  }

  lemma {:induction false} PrefixOfPrefix(log: Log, m: nat, n: nat)
    requires n <= m <= |log|
    ensures log[..m][..n] == log[..n]
  {
  }

  lemma {:induction false} HistoryAt(es: seq<Event>, n: nat)
    requires Run(es).Running? && n <= |es|
    ensures Run(es[..n]).Running? && Run(es[..n]).s == History(es)[n]
    decreases |es|
  {
    if n == |es| {
      assert es[..n] == es;
    } else {
      var es0 := es[..|es| - 1];
      HistoryAt(es0, n);
      assert es0[..n] == es[..n];
    }
  }

  /** Position `n` of the log records the step from moment `n` to moment `n + 1`. */
  lemma {:induction false} HistoryStep(es: seq<Event>, n: nat)
    requires Run(es).Running? && n < |es|
    ensures Valid(History(es)[n]) && Step(History(es)[n], es[n]) == Continue(History(es)[n + 1], Run(es).log[n])
  {
    HistoryAt(es, n);
    HistoryAt(es, n + 1);
    RunPrefix(es, n + 1);
    assert es[..n + 1][..n] == es[..n];
    LastStep(es[..n + 1]);
  }
}
