/** A machine with maps in place of tables and operating system threads in place of slots, that
    goes by the events alone; and the proof that the runtime is that machine. */
module TsanMachine {
  import opened Common
  import opened ProbeTable
  import opened TsanMutexes
  import opened TsanState

  /** The last recorded access to an address. */
  datatype Note = Note(os: nat, isWrite: bool)

  /** The id and the clock of every thread that has acted, the clock of every live mutex, and the
      last access to every recorded address. */
  datatype Machine = Machine(tids: map<nat, nat>, clocks: map<nat, Clock>, live: map<nat, Clock>, last: map<nat, Note>)

  const START := Machine(map[], map[], map[], map[])

  ghost predicate Sound(m: Machine) {
    && m.clocks.Keys == m.tids.Keys && |m.tids| < 64
    && (forall o :: o in m.tids ==> 1 <= m.tids[o] <= |m.tids|)
    && (forall a :: a in m.last ==> m.last[a].os in m.tids)
  }

  /** The clock of a thread that has just got the id `t`. */
  function FirstClock(t: nat): Clock {
    seq(MAX_THREADS, i => if i == t then 1 else 0)
  }

  function PointwiseMax(a: Clock, b: Clock): Clock {
    seq(MAX_THREADS, i requires 0 <= i < MAX_THREADS => if a[i] < b[i] then b[i] else a[i])
  }

  /** A thread acts: its first time it takes the next id, if there is one. */
  ghost function Enter(m: Machine, o: nat): (r: Option<Machine>)
    requires Sound(m)
    ensures r.Some? ==> Sound(r.value) && o in r.value.tids
  {
    if o in m.tids then Some(m)
    else
      var t := |m.tids| + 1;
      if t >= 64 then None
      else Some(m.(tids := m.tids[o := t], clocks := m.clocks[o := FirstClock(t)]))
  }

  /** `o` has not heard of what `p` has come to. */
  ghost predicate Behind(m: Machine, o: nat, p: nat)
    requires Sound(m) && o in m.tids && p in m.tids
  {
    m.clocks[o][m.tids[p]] < m.clocks[p][m.tids[p]]
  }

  ghost predicate Reports(m: Machine, o: nat, addr: nat, isWrite: bool)
    requires Sound(m) && o in m.tids
  {
    addr in m.last && var p := m.last[addr].os;
                      p != o && (isWrite || m.last[addr].isWrite) && Behind(m, o, p) && Behind(m, p, o)
  }

  ghost function Act(m: Machine, o: nat, op: Op): (r: Option<Machine>)
    requires Sound(m) && o in m.tids
    ensures r.Some? ==> Sound(r.value)
  {
    var t, vc := m.tids[o], m.clocks[o];
    match op
    case FuncEntry => Some(m)
    case Access(addr, isWrite) =>
      if Reports(m, o, addr, isWrite) then None
      else if addr !in m.last && |m.last| >= 65536 then Some(m)
      else Some(m.(last := m.last[addr := Note(o, isWrite)], clocks := m.clocks[o := Inc(vc, t)]))
    case PostLock(addr) =>
      if addr in m.live then Some(m.(clocks := m.clocks[o := PointwiseMax(vc, m.live[addr])])) else Some(m)
    case PostUnlock(addr) =>
      if addr in m.live then Some(m.(live := m.live[addr := Inc(vc, t)])) else Some(m)
  }

  /** A new mutex starts at the zero clock, if there is room for one. */
  function WithNew(live: map<nat, Clock>, addr: nat): map<nat, Clock> {
    if |live| < 1024 then live[addr := ZeroClock()] else live
  }

  /** One event; `None` when it ends the run. */
  ghost function MachineStep(m: Machine, e: Event): (r: Option<Machine>)
    requires Sound(m)
    ensures r.Some? ==> Sound(r.value)
  {
    match e
    case Create(addr) => Some(m.(live := WithNew(m.live, addr)))
    case Destroy(addr) => Some(m.(live := m.live - {addr}))
    case By(o, op) =>
      match Enter(m, o)
      case None => None
      case Some(m') => Act(m', o, op)
  }

  ghost function MachineRun(es: seq<Event>): (r: Option<Machine>)
    ensures r.Some? ==> Sound(r.value)
  {
    if es == [] then Some(START)
    else
      match MachineRun(es[..|es| - 1])
      case None => None
      case Some(m) => MachineStep(m, es[|es| - 1])
  }

  /** No event of the run creates a mutex that is live. */
  ghost predicate CreatesDead(es: seq<Event>) {
    es == [] ||
    (CreatesDead(es[..|es| - 1]) &&
     var m, e := MachineRun(es[..|es| - 1]), es[|es| - 1];
     e.Create? && m.Some? ==> e.addr !in m.value.live)
  }

  // ----- the runtime's state and the machine's -----

  ghost predicate ThreadsAgree(threads: seq<Thread>, tids: map<nat, nat>, clocks: map<nat, Clock>)
    requires |threads| == MAX_THREADS
  {
    && threads[0].vc[0] == 0
    && forall o :: o in tids ==> tids[o] < MAX_THREADS && o in clocks && threads[tids[o]].vc == clocks[o]
  }

  ghost predicate NoteOf(e: Shadow, tids: map<nat, nat>, last: map<nat, Note>) {
    && e.addr in last && last[e.addr].os in tids
    && e.tid == tids[last[e.addr].os] && e.isWrite == last[e.addr].isWrite
  }

  ghost predicate NotesAgree(sh: seq<Shadow>, tids: map<nat, nat>, last: map<nat, Note>)
    requires |sh| == SHADOW_ENTRIES
  {
    && WellFormed(ShadowKeys(sh), ShadowHash) && KeySet(ShadowKeys(sh)) == last.Keys
    && forall k :: 0 <= k < SHADOW_ENTRIES && sh[k].active ==> NoteOf(sh[k], tids, last)
  }

  ghost predicate Agrees(s: State, m: Machine) {
    && Valid(s) && Sound(m) && s.tidOf == m.tids && s.threadCount == |m.tids|
    && ThreadsAgree(s.threads, m.tids, m.clocks)
    && NotesAgree(s.shadow, m.tids, m.last)
    && Represents(s, m.live)
  }

  lemma StartAgrees()
    ensures Agrees(Initial(), START)
  {
    var ks, ms := ShadowKeys(Initial().shadow), MutexKeys(Initial().mutexes);
    assert forall i :: 0 <= i < SHADOW_ENTRIES ==> ks[i].None?;
    assert forall i :: 0 <= i < MAX_MUTEXES ==> ms[i].None?;
  }

  lemma NotesKept(sh: seq<Shadow>, tids: map<nat, nat>, last: map<nat, Note>, o: nat, t: nat)
    requires |sh| == SHADOW_ENTRIES && NotesAgree(sh, tids, last) && o !in tids
    ensures NotesAgree(sh, tids[o := t], last)
  {
    forall k | 0 <= k < SHADOW_ENTRIES && sh[k].active ensures NoteOf(sh[k], tids[o := t], last) {
      assert NoteOf(sh[k], tids, last);
    }
  }

  lemma NewThread(s: State, o: nat)
    requires Valid(s) && o !in s.tidOf && s.threadCount + 1 < MAX_THREADS
    ensures Registered(s, o).Some?
    ensures var t, s' := s.threadCount + 1, Registered(s, o).value;
            && s'.threads == s.threads[t := Thread(t, FirstClock(t), true)] && s'.threadCount == t
            && s'.tidOf == s.tidOf[o := t] && s'.shadow == s.shadow && s'.mutexes == s.mutexes
  {
    FirstClockIs(s.threadCount + 1);
  }

  lemma EnterAgrees(s: State, m: Machine, o: nat)
    requires Agrees(s, m)
    ensures Registered(s, o).Some? <==> Enter(m, o).Some?
    ensures Enter(m, o).Some? ==> Agrees(Registered(s, o).value, Enter(m, o).value)
  {
    if o !in m.tids && |m.tids| + 1 < MAX_THREADS {
      NewThread(s, o);
      EnteredAgrees(s, m, Registered(s, o).value, Enter(m, o).value, o);
    }
  }

  lemma FirstClockIs(t: Tid)
    ensures Inc(ZeroClock(), t) == FirstClock(t)
  {
  }

  lemma EnteredAgrees(s: State, m: Machine, s': State, m': Machine, o: nat)
    requires Agrees(s, m) && Valid(s') && Sound(m') && o !in m.tids && |m.tids| + 1 < MAX_THREADS
    requires var t := |m.tids| + 1;
             && s'.threads == s.threads[t := Thread(t, FirstClock(t), true)] && s'.threadCount == t
             && m'.tids == m.tids[o := t] == s'.tidOf && m'.clocks == m.clocks[o := FirstClock(t)]
    requires s'.shadow == s.shadow && s'.mutexes == s.mutexes && m'.last == m.last && m'.live == m.live
    ensures Agrees(s', m')
  {
    NotesKept(s.shadow, m.tids, m.last, o, |m.tids| + 1);
    ThreadEntered(s.threads, m.tids, m.clocks, o, |m.tids| + 1);
  }

  lemma ThreadEntered(threads: seq<Thread>, tids: map<nat, nat>, clocks: map<nat, Clock>, o: nat, t: nat)
    requires |threads| == MAX_THREADS && ThreadsAgree(threads, tids, clocks) && o !in tids && 1 <= t < MAX_THREADS
    requires forall p :: p in tids ==> tids[p] < t
    ensures ThreadsAgree(threads[t := Thread(t, FirstClock(t), true)], tids[o := t], clocks[o := FirstClock(t)])
  {
  }

  /** The test of the runtime on the slot it finds is the machine's test. */
  lemma ReportsAgree(s: State, m: Machine, o: nat, addr: nat, isWrite: bool)
    requires Agrees(s, m) && o in m.tids
    ensures var t, f := m.tids[o], FindShadow(s, addr);
            && (f.None? <==> addr !in m.last && |m.last| >= SHADOW_ENTRIES)
            && (f.Some? ==> (Races(s, s.shadow[f.value], t, isWrite) <==> Reports(m, o, addr, isWrite)))
  {
    var f := FindShadow(s, addr);
    FoundNote(s.shadow, m.tids, m.last, addr);
    if f.Some? && addr in m.last {
      KnownTest(s, m, o, addr, isWrite, s.shadow[f.value]);
    }
  }

  lemma FoundNote(sh: seq<Shadow>, tids: map<nat, nat>, last: map<nat, Note>, addr: nat)
    requires |sh| == SHADOW_ENTRIES && NotesAgree(sh, tids, last)
    ensures var f := Probe(ShadowKeys(sh), ShadowHash(addr), addr, true);
            && (f.None? <==> addr !in last && |last| >= SHADOW_ENTRIES)
            && (f.Some? ==> f.value < SHADOW_ENTRIES && (sh[f.value].active <==> addr in last))
            && (f.Some? && addr in last ==> sh[f.value].addr == addr && NoteOf(sh[f.value], tids, last))
  {
    var ks, f := ShadowKeys(sh), Probe(ShadowKeys(sh), ShadowHash(addr), addr, true);
    InsertRefinesSet(ks, ShadowHash, addr);
    FullIffCapacity(ks);
    assert |last| == |last.Keys|;
    if f.Some? {
      assert ks[f.value] == ShadowKey(sh[f.value]);
      if addr !in last {
        assert ks[f.value] != Some(addr);
      }
    }
  }

  lemma KnownTest(s: State, m: Machine, o: nat, addr: nat, isWrite: bool, e: Shadow)
    requires Valid(s) && Sound(m) && ThreadsAgree(s.threads, m.tids, m.clocks) && o in m.tids
    requires addr in m.last && e.addr == addr && NoteOf(e, m.tids, m.last)
    requires forall p :: p in m.tids && m.tids[p] == m.tids[o] ==> p == o
    ensures Races(s, e, m.tids[o], isWrite) <==> Reports(m, o, addr, isWrite)
  {
  }

  lemma AccessAgrees(s: State, m: Machine, o: nat, addr: nat, isWrite: bool)
    requires Agrees(s, m) && o in m.tids
    ensures var r, r' := OpStep(s, m.tids[o], Access(addr, isWrite)), Act(m, o, Access(addr, isWrite));
            && (r.Continue? <==> r'.Some?)
            && (r'.Some? ==> Agrees(r.s, r'.value))
  {
    ReportsAgree(s, m, o, addr, isWrite);
    var f := FindShadow(s, addr);
    if f.Some? && !Reports(m, o, addr, isWrite) {
      var r, r' := AccessStep(s, m.tids[o], addr, isWrite), Act(m, o, Access(addr, isWrite));
      RecordedAgrees(s, m, r.s, r'.value, o, addr, isWrite, f.value);
    }
  }

  lemma RecordedAgrees(s: State, m: Machine, s': State, m': Machine, o: nat, addr: nat, isWrite: bool, k: nat)
    requires Agrees(s, m) && Valid(s') && Sound(m') && o in m.tids && k < SHADOW_ENTRIES
    requires Probe(ShadowKeys(s.shadow), ShadowHash(addr), addr, true) == Some(k)
    requires s'.shadow == s.shadow[k := Shadow(addr, m.clocks[o], m.tids[o], isWrite, true)]
    requires m'.last == m.last[addr := Note(o, isWrite)]
    requires OnlyClock(s, m, s', m', o, Inc(m.clocks[o], m.tids[o])) && s'.mutexes == s.mutexes
    ensures Agrees(s', m')
  {
    NoteEntered(s.shadow, m.tids, m.last, o, addr, isWrite, k, m.clocks[o]);
    ClockSet(s.threads, m.tids, m.clocks, o, Inc(m.clocks[o], m.tids[o]));
  }

  /** On both sides `o` gets a new clock, and neither ids nor live mutexes change. */
  ghost predicate OnlyClock(s: State, m: Machine, s': State, m': Machine, o: nat, vc: Clock)
    requires Valid(s) && Sound(m) && o in m.tids
  {
    var t := m.tids[o];
    && s'.threads == s.threads[t := Thread(s.threads[t].tid, vc, s.threads[t].active)]
    && s'.tidOf == s.tidOf && s'.threadCount == s.threadCount
    && m'.tids == m.tids && m'.clocks == m.clocks[o := vc] && m'.live == m.live
  }

  lemma NoteEntered(sh: seq<Shadow>, tids: map<nat, nat>, last: map<nat, Note>,
                    o: nat, addr: nat, isWrite: bool, k: nat, vc: Clock)
    requires |sh| == SHADOW_ENTRIES && NotesAgree(sh, tids, last) && o in tids
    requires Probe(ShadowKeys(sh), ShadowHash(addr), addr, true) == Some(k) && k < SHADOW_ENTRIES
    ensures NotesAgree(sh[k := Shadow(addr, vc, tids[o], isWrite, true)], tids, last[addr := Note(o, isWrite)])
  {
    var e, last' := Shadow(addr, vc, tids[o], isWrite, true), last[addr := Note(o, isWrite)];
    var sh' := sh[k := e];
    KeyEntered(sh, addr, k, e);
    assert last'.Keys == last.Keys + {addr};
    forall j | 0 <= j < SHADOW_ENTRIES && sh'[j].active ensures NoteOf(sh'[j], tids, last') {
      if j != k {
        assert NoteOf(sh[j], tids, last);
      }
    }
  }

  lemma KeyEntered(sh: seq<Shadow>, addr: nat, k: nat, e: Shadow)
    requires |sh| == SHADOW_ENTRIES && WellFormed(ShadowKeys(sh), ShadowHash) && k < SHADOW_ENTRIES
    requires Probe(ShadowKeys(sh), ShadowHash(addr), addr, true) == Some(k) && e.active && e.addr == addr
    ensures WellFormed(ShadowKeys(sh[k := e]), ShadowHash)
    ensures KeySet(ShadowKeys(sh[k := e])) == KeySet(ShadowKeys(sh)) + {addr}
    ensures forall j :: 0 <= j < SHADOW_ENTRIES && j != k && sh[j].active ==> sh[j].addr != addr
  {
    var ks, ks' := ShadowKeys(sh), ShadowKeys(sh[k := e]);
    InsertRefinesSet(ks, ShadowHash, addr);
    assert ks' == Insert(ks, ShadowHash(addr), addr);
    forall j | 0 <= j < SHADOW_ENTRIES && j != k && sh[j].active ensures sh[j].addr != addr {
      assert ks'[j] == Some(sh[j].addr) && ks'[k] == Some(addr);
    }
  }

  /** A new clock for one thread, on both sides. */
  lemma ClockSet(threads: seq<Thread>, tids: map<nat, nat>, clocks: map<nat, Clock>, o: nat, vc: Clock)
    requires |threads| == MAX_THREADS && ThreadsAgree(threads, tids, clocks) && o in tids && tids[o] != 0
    requires forall p :: p in tids && tids[p] == tids[o] ==> p == o
    ensures var t := tids[o];
            ThreadsAgree(threads[t := Thread(threads[t].tid, vc, threads[t].active)], tids, clocks[o := vc])
  {
  }

  lemma LockAgrees(s: State, m: Machine, o: nat, addr: nat)
    requires Agrees(s, m) && o in m.tids
    ensures var r, r' := OpStep(s, m.tids[o], PostLock(addr)), Act(m, o, PostLock(addr));
            r.Continue? && r'.Some? && Agrees(r.s, r'.value)
  {
    FindMutexIffLive(s, m.live, addr);
    if addr in m.live {
      OpRefines(s, m.live, m.tids[o], PostLock(addr), o);
      assert Join(m.clocks[o], m.live[addr]) == PointwiseMax(m.clocks[o], m.live[addr]);
      LockedAgrees(s, m, LockStep(s, m.tids[o], addr).s, Act(m, o, PostLock(addr)).value, o,
                   Join(m.clocks[o], m.live[addr]));
    }
  }

  lemma LockedAgrees(s: State, m: Machine, s': State, m': Machine, o: nat, vc: Clock)
    requires Agrees(s, m) && Valid(s') && Sound(m') && o in m.tids && OnlyClock(s, m, s', m', o, vc)
    requires s'.shadow == s.shadow && m'.last == m.last && Represents(s', m.live)
    ensures Agrees(s', m')
  {
    ClockSet(s.threads, m.tids, m.clocks, o, vc);
  }

  /** Steps that change nothing but the mutex table. */
  lemma TableAgrees(s: State, m: Machine, s': State, m': Machine)
    requires Agrees(s, m) && Valid(s') && Sound(m') && Represents(s', m'.live)
    requires s'.threads == s.threads && s'.shadow == s.shadow && s'.tidOf == s.tidOf && s'.threadCount == s.threadCount
    requires m'.tids == m.tids && m'.clocks == m.clocks && m'.last == m.last
    ensures Agrees(s', m')
  {
  }

  lemma UnlockAgrees(s: State, m: Machine, o: nat, addr: nat)
    requires Agrees(s, m) && o in m.tids
    ensures var r, r' := OpStep(s, m.tids[o], PostUnlock(addr)), Act(m, o, PostUnlock(addr));
            r.Continue? && r'.Some? && Agrees(r.s, r'.value)
  {
    FindMutexIffLive(s, m.live, addr);
    OpRefines(s, m.live, m.tids[o], PostUnlock(addr), o);
    TableAgrees(s, m, UnlockStep(s, m.tids[o], addr).s, Act(m, o, PostUnlock(addr)).value);
  }

  lemma ActAgrees(s: State, m: Machine, o: nat, op: Op)
    requires Agrees(s, m) && o in m.tids
    ensures var r, r' := OpStep(s, m.tids[o], op), Act(m, o, op);
            && (r.Continue? <==> r'.Some?)
            && (r'.Some? ==> Agrees(r.s, r'.value))
  {
    match op
    case FuncEntry =>
    case Access(addr, isWrite) => AccessAgrees(s, m, o, addr, isWrite);
    case PostLock(addr) => LockAgrees(s, m, o, addr);
    case PostUnlock(addr) => UnlockAgrees(s, m, o, addr);
  }

  lemma CreateTouchesTable(s: State, addr: nat)
    requires Valid(s)
    ensures var s' := CreateStep(s, addr).s;
            && s'.threads == s.threads && s'.shadow == s.shadow
            && s'.tidOf == s.tidOf && s'.threadCount == s.threadCount
  {
  }

  lemma CreateAgrees(s: State, m: Machine, addr: nat)
    requires Agrees(s, m) && addr !in m.live
    ensures Agrees(CreateStep(s, addr).s, m.(live := WithNew(m.live, addr)))
  {
    assert Represents(CreateStep(s, addr).s, WithNew(m.live, addr)) by {
      CreateRefines(s, m.live, addr);
    }
    CreateTouchesTable(s, addr);
    TableAgrees(s, m, CreateStep(s, addr).s, m.(live := WithNew(m.live, addr)));
  }

  lemma DestroyAgrees(s: State, m: Machine, addr: nat)
    requires Agrees(s, m)
    ensures Agrees(DestroyStep(s, addr).s, MachineStep(m, Destroy(addr)).value)
  {
    DestroyRefines(s, m.live, addr);
    TableAgrees(s, m, DestroyStep(s, addr).s, MachineStep(m, Destroy(addr)).value);
  }

  lemma ByAgrees(s: State, m: Machine, o: nat, op: Op)
    requires Agrees(s, m)
    ensures var r, r' := Step(s, By(o, op)), MachineStep(m, By(o, op));
            && (r.Continue? <==> r'.Some?)
            && (r'.Some? ==> Agrees(r.s, r'.value))
  {
    EnterAgrees(s, m, o);
    if Enter(m, o).Some? {
      ActAgrees(Registered(s, o).value, Enter(m, o).value, o, op);
    }
  }

  lemma StepAgrees(s: State, m: Machine, e: Event)
    requires Agrees(s, m) && (e.Create? ==> e.addr !in m.live)
    ensures var r, r' := Step(s, e), MachineStep(m, e);
            && (r.Continue? <==> r'.Some?)
            && (r'.Some? ==> Agrees(r.s, r'.value))
  {
    match e
    case Create(addr) => CreateAgrees(s, m, addr);
    case Destroy(addr) => DestroyAgrees(s, m, addr);
    case By(o, op) => ByAgrees(s, m, o, op);
  }

  /** In every run that creates only dead mutexes the hash tables, slots and ids of the runtime do
      what the machine does with maps: the run goes on exactly as long, and its state is the
      machine's. */
  lemma {:induction false} RuntimeIsMachine(es: seq<Event>)
    requires CreatesDead(es)
    ensures Run(es).Running? <==> MachineRun(es).Some?
    ensures Run(es).Running? ==> Agrees(Run(es).s, MachineRun(es).value)
    decreases |es|
  {
    if es == [] {
      StartAgrees();
    } else {
      var front := es[..|es| - 1];
      RuntimeIsMachine(front);
      if Run(front).Running? {
        StepAgrees(Run(front).s, MachineRun(front).value, es[|es| - 1]);
        RunStep(es);
      }
    }
  }

  /** The machine's live mutexes are those of the mutex table's map. */
  lemma {:induction false} LiveIsMachine(es: seq<Event>)
    requires Run(es).Running? && CreatesDead(es)
    ensures MachineRun(es).Some? && CreatesOnlyDead(es) && LiveMutexes(es) == MachineRun(es).value.live
    decreases |es|
  {
    RuntimeIsMachine(es);
    if es != [] {
      var front := es[..|es| - 1];
      LastStep(es);
      LiveIsMachine(front);
      RuntimeIsMachine(front);
      LiveStep(Run(front).s, MachineRun(front).value, es[|es| - 1]);
    }
  }

  lemma LiveStep(s: State, m: Machine, e: Event)
    requires Agrees(s, m) && Step(s, e).Continue? && MachineStep(m, e).Some?
    ensures NextLive(s, m.live, e) == MachineStep(m, e).value.live
  {
    if e.By? {
      EnterAgrees(s, m, e.os);
      LiveAfter(Enter(m, e.os).value, e.os, e.op);
    }
  }

  lemma LiveAfter(m: Machine, o: nat, op: Op)
    requires Sound(m) && o in m.tids && Act(m, o, op).Some?
    ensures Act(m, o, op).value.live == MapStep(m.live, By(o, op), m.tids[o], m.clocks[o])
  {
  }

  /** An access that ends such a run is one the machine reports, or one by a thread too many. */
  lemma {:induction false} RaceIsMachineReport(es: seq<Event>, o: nat, addr: nat, isWrite: bool)
    requires CreatesDead(es) && Run(es).Running?
    ensures MachineRun(es).Some?
    ensures var r, m := Step(Run(es).s, By(o, Access(addr, isWrite))), Enter(MachineRun(es).value, o);
            && (r.TooManyThreads? <==> m.None?)
            && (r.Race? <==> m.Some? && Reports(m.value, o, addr, isWrite))
  {
    RuntimeIsMachine(es);
    MomentReport(Run(es).s, MachineRun(es).value, o, addr, isWrite);
  }

  lemma StepOfThread(s: State, o: nat, op: Op)
    requires Valid(s)
    ensures Registered(s, o).None? ==> Step(s, By(o, op)) == TooManyThreads
    ensures Registered(s, o).Some? ==>
              var s' := Registered(s, o).value; Step(s, By(o, op)) == OpStep(s', s'.tidOf[o], op)
  {
  }

  lemma MomentReport(s: State, m: Machine, o: nat, addr: nat, isWrite: bool)
    requires Agrees(s, m)
    ensures var r, m' := Step(s, By(o, Access(addr, isWrite))), Enter(m, o);
            && (r.TooManyThreads? <==> m'.None?)
            && (r.Race? <==> m'.Some? && Reports(m'.value, o, addr, isWrite))
  {
    EnterAgrees(s, m, o);
    StepOfThread(s, o, Access(addr, isWrite));
    if Enter(m, o).Some? {
      AccessReport(Registered(s, o).value, Enter(m, o).value, o, addr, isWrite);
    }
  }

  lemma AccessReport(s: State, m: Machine, o: nat, addr: nat, isWrite: bool)
    requires Agrees(s, m) && o in m.tids
    ensures var r := AccessStep(s, m.tids[o], addr, isWrite);
            !r.TooManyThreads? && (r.Race? <==> Reports(m, o, addr, isWrite))
  {
    ReportsAgree(s, m, o, addr, isWrite);
  }
}
