/** The mutex table as a partial map, and what copying a clock on release keeps. */
module TsanMutexes {
  import opened Common
  import opened ProbeTable
  import opened TsanState
  import opened HappensBefore
  import opened TsanClocks
  import opened TsanEvents

  // ----- deletion without tombstones -----

  /** The table holds exactly the entries of `m`, each in one active slot. */
  ghost predicate Holding(ms: seq<Mutex>, m: map<nat, Clock>) {
    && Unique(MutexKeys(ms))
    && KeySet(MutexKeys(ms)) == m.Keys
    && forall k :: 0 <= k < |ms| && ms[k].active ==> ms[k].addr in m && ms[k].vc == m[ms[k].addr]
  }

  ghost predicate Represents(s: State, m: map<nat, Clock>)
    requires Valid(s)
  {
    Holding(s.mutexes, m)
  }

  /** A find that may stop at the hash index does. */
  lemma FindMutexAtHash(s: State, addr: nat, alloc: bool)
    requires Valid(s) && Stops(MutexKeys(s.mutexes), MutexHash(addr), addr, alloc)
    ensures FindMutex(s, addr, alloc) == Some(MutexHash(addr))
  {
    var ks := MutexKeys(s.mutexes);
    ProbeIsFirstStop(ks, MutexHash(addr), addr, alloc);
    FirstStopUnique(ks, MutexHash(addr), addr, alloc, Some(MutexHash(addr)), FindMutex(s, addr, alloc));
  }

  /** What an event means for the map of live mutexes: `vc` is the acting thread's clock. */
  function MapStep(m: map<nat, Clock>, e: Event, t: Tid, vc: Clock): map<nat, Clock> {
    match e
    case Create(a) => if |m| < MAX_MUTEXES then m[a := ZeroClock()] else m
    case Destroy(a) => m - {a}
    case By(_, op) => if op.PostUnlock? && op.addr in m then m[op.addr := Inc(vc, t)] else m
  }

  /** A find that may not allocate succeeds exactly for live mutexes and yields their entry,
      whatever holes destroyed entries have left. */
  lemma FindMutexIffLive(s: State, m: map<nat, Clock>, addr: nat)
    requires Valid(s) && Represents(s, m)
    ensures var f := FindMutex(s, addr, false);
            && (f.Some? <==> addr in m)
            && (f.Some? ==>
                  var e := s.mutexes[f.value];
                  e.active && e.addr == addr && e.vc == m[addr])
  {
    FindIffMember(MutexKeys(s.mutexes), MutexHash(addr), addr);
  }

  lemma CreateRefines(s: State, m: map<nat, Clock>, addr: nat)
    requires Valid(s) && Represents(s, m) && addr !in m
    ensures Represents(CreateStep(s, addr).s, MapStep(m, Create(addr), 0, ZeroClock()))
  {
    var ks, f := MutexKeys(s.mutexes), FindMutex(s, addr, true);
    RoomIffSmall(ks, MutexHash(addr), addr);
    assert |m| == |m.Keys|;
    if f.Some? {
      CreatedEntry(s, m, f.value, addr);
    }
  }

  lemma CreatedEntry(s: State, m: map<nat, Clock>, k: nat, addr: nat)
    requires Valid(s) && Represents(s, m) && addr !in m && k < MAX_MUTEXES && MutexKeys(s.mutexes)[k].None?
    ensures Represents(WithMutex(s, k, Mutex(addr, ZeroClock(), -1, true)), m[addr := ZeroClock()])
  {
    var ks := MutexKeys(s.mutexes);
    assert MutexKeys(s.mutexes[k := Mutex(addr, ZeroClock(), -1, true)]) == ks[k := Some(addr)];
    KeySetAdd(ks, k, addr);
    EntriesMatch(s.mutexes, m, k, addr);
  }

  lemma EntriesMatch(ms: seq<Mutex>, m: map<nat, Clock>, k: nat, addr: nat)
    requires k < |ms| && addr !in m
    requires forall i :: 0 <= i < |ms| && ms[i].active ==> ms[i].addr in m && ms[i].vc == m[ms[i].addr]
    ensures var ms', m' := ms[k := Mutex(addr, ZeroClock(), -1, true)], m[addr := ZeroClock()];
            forall i :: 0 <= i < |ms'| && ms'[i].active ==> ms'[i].addr in m' && ms'[i].vc == m'[ms'[i].addr]
  {
  }

  lemma KeySetRemove(ks: Keys, k: nat, key: nat)
    requires k < |ks| && ks[k] == Some(key) && Unique(ks)
    ensures KeySet(ks[k := None]) == KeySet(ks) - {key} && Unique(ks[k := None])
  {
    var ks' := ks[k := None];
    forall x | x in KeySet(ks) && x != key ensures x in KeySet(ks') {
      var i :| 0 <= i < |ks| && ks[i] == Some(x);
      assert ks'[i] == Some(x);
    }
  }

  lemma DestroyRefines(s: State, m: map<nat, Clock>, addr: nat)
    requires Valid(s) && Represents(s, m)
    ensures Represents(DestroyStep(s, addr).s, m - {addr})
  {
    var ks, s' := MutexKeys(s.mutexes), DestroyStep(s, addr).s;
    FindMutexIffLive(s, m, addr);
    var f := FindMutex(s, addr, false);
    if f.Some? {
      assert MutexKeys(s'.mutexes) == ks[f.value := None];
      KeySetRemove(ks, f.value, addr);
      forall k | 0 <= k < MAX_MUTEXES && s'.mutexes[k].active
        ensures s'.mutexes[k].addr in m - {addr} && s'.mutexes[k].vc == (m - {addr})[s'.mutexes[k].addr]
      {
        assert ks[k] == Some(s.mutexes[k].addr);
      }
    } else {
      assert m - {addr} == m;
    }
  }

  lemma OpRefines(s: State, m: map<nat, Clock>, t: Tid, op: Op, o: nat)
    requires Valid(s) && Represents(s, m) && 1 <= t <= s.threadCount && OpStep(s, t, op).Continue?
    ensures Represents(OpStep(s, t, op).s, MapStep(m, By(o, op), t, s.threads[t].vc))
  {
    var ks, s' := MutexKeys(s.mutexes), OpStep(s, t, op).s;
    match op
    case FuncEntry =>
    case Access(_, _) =>
    case PostLock(addr) =>
      assert MutexKeys(s'.mutexes) == ks;
    case PostUnlock(addr) =>
      FindMutexIffLive(s, m, addr);
      assert MutexKeys(s'.mutexes) == ks;
      var m' := MapStep(m, By(o, op), t, s.threads[t].vc);
      assert m'.Keys == m.Keys;
      forall k | 0 <= k < MAX_MUTEXES && s'.mutexes[k].active
        ensures s'.mutexes[k].vc == m'[s'.mutexes[k].addr]
      {
        assert ks[k] == Some(s.mutexes[k].addr);
      }
  }

  /** The map of live mutexes after one more event. */
  function NextLive(s: State, live: map<nat, Clock>, e: Event): map<nat, Clock>
    requires Valid(s) && Step(s, e).Continue?
  {
    if e.By? then
      var s' := Registered(s, e.os).value;
      MapStep(live, e, s'.tidOf[e.os], s'.threads[s'.tidOf[e.os]].vc)
    else MapStep(live, e, 0, ZeroClock())
  }

  /** The map of live mutexes after a run. */
  function LiveMutexes(es: seq<Event>): map<nat, Clock>
    requires Run(es).Running?
  {
    if es == [] then map[]
    else NextLive(Run(es[..|es| - 1]).s, LiveMutexes(es[..|es| - 1]), es[|es| - 1])
  }

  /** Clients create only mutexes that are not live at the time. */
  ghost predicate CreatesOnlyDead(es: seq<Event>)
    requires Run(es).Running?
  {
    es == [] ||
    (CreatesOnlyDead(es[..|es| - 1]) && (es[|es| - 1].Create? ==> es[|es| - 1].addr !in LiveMutexes(es[..|es| - 1])))
  }

  /** Under that discipline, in every run: at most one active slot per address, and the table
      is the partial map of live mutexes, each new entry starting at the zero clock. */
  lemma {:induction false} MutexTableIsMap(es: seq<Event>)
    requires Run(es).Running? && CreatesOnlyDead(es)
    ensures Represents(Run(es).s, LiveMutexes(es))
  {
    if es == [] {
      var ks := MutexKeys(Initial().mutexes);
      assert forall i :: 0 <= i < MAX_MUTEXES ==> ks[i].None?;
    } else {
      var es0, e := es[..|es| - 1], es[|es| - 1];
      MutexTableIsMap(es0);
      var s, m := Run(es0).s, LiveMutexes(es0);
      match e
      case Create(addr) => CreateRefines(s, m, addr);
      case Destroy(addr) => DestroyRefines(s, m, addr);
      case By(o, op) =>
        var s' := Registered(s, o).value;
        assert s'.mutexes == s.mutexes;
        OpRefines(s', m, s'.tidOf[o], op, o);
    }
  }

  lemma {:induction false} CreatesPrefix(es: seq<Event>, n: nat)
    requires Run(es).Running? && CreatesOnlyDead(es) && n <= |es|
    ensures Run(es[..n]).Running? && CreatesOnlyDead(es[..n])
    decreases |es|
  {
    if n == |es| {
      assert es[..n] == es;
    } else {
      var front := es[..|es| - 1];
      LastStep(es);
      CreatesPrefix(front, n);
      assert front[..n] == es[..n];
    }
  }

  /** The map of live mutexes at a moment of the run represents the table of that moment. */
  lemma {:induction false} MomentIsMap(es: seq<Event>, n: nat)
    requires Run(es).Running? && CreatesOnlyDead(es) && n <= |es|
    ensures Run(es[..n]).Running? && Valid(History(es)[n]) && Represents(History(es)[n], LiveMutexes(es[..n]))
  {
    CreatesPrefix(es, n);
    MutexTableIsMap(es[..n]);
    HistoryAt(es, n);
  }

  lemma LockMeans(s: State, m: map<nat, Clock>, t: Tid, addr: nat)
    requires Valid(s) && Represents(s, m) && 1 <= t <= s.threadCount
    ensures var Continue(s', rec) := LockStep(s, t, addr);
            if addr in m then
              && rec.RAcquire? && rec.tid == t && rec.before == s.threads[t].vc
              && rec.slot < MAX_MUTEXES && s.mutexes[rec.slot].active && s.mutexes[rec.slot].addr == addr
              && (forall u: Tid :: s'.threads[t].vc[u] ==
                    if m[addr][u] > s.threads[t].vc[u] then m[addr][u] else s.threads[t].vc[u])
              && (forall u: Tid :: u != t ==> s'.threads[u] == s.threads[u])
              && s'.mutexes == s.mutexes[rec.slot := s.mutexes[rec.slot].(ownerTid := t)]
            else s' == s && rec == RNone
  {
    FindMutexIffLive(s, m, addr);
  }

  lemma UnlockMeans(s: State, m: map<nat, Clock>, t: Tid, addr: nat)
    requires Valid(s) && Represents(s, m) && 1 <= t <= s.threadCount
    ensures var Continue(s', rec) := UnlockStep(s, t, addr);
            if addr in m then
              && rec.RRelease? && rec.tid == t && rec.before == s.threads[t].vc && s'.threads == s.threads
              && rec.slot < MAX_MUTEXES && s.mutexes[rec.slot].active && s.mutexes[rec.slot].addr == addr
            else s' == s && rec == RNone
  {
    FindMutexIffLive(s, m, addr);
  }

  /** Under that discipline a post-lock of a live mutex is an acquire by its thread, whose clock
      becomes the pointwise maximum of what it was and the mutex's; of any other it does nothing. */
  lemma {:induction false} LockEntry(es: seq<Event>, n: nat)
    requires Run(es).Running? && CreatesOnlyDead(es) && n < |es| && es[n].By? && es[n].op.PostLock?
    ensures Run(es[..n]).Running? && Valid(History(es)[n]) && Registered(History(es)[n], es[n].os).Some?
    ensures Valid(History(es)[n + 1])
    ensures var s, s', rec := Actor(es, n), History(es)[n + 1], Run(es).log[n];
            var t, a, m := s.tidOf[es[n].os], es[n].op.addr, LiveMutexes(es[..n]);
            if a in m then
              && rec.RAcquire? && rec.tid == t && rec.before == s.threads[t].vc
              && rec.slot < MAX_MUTEXES && s.mutexes[rec.slot].active && s.mutexes[rec.slot].addr == a
              && (forall u: Tid :: s'.threads[t].vc[u] ==
                    if m[a][u] > s.threads[t].vc[u] then m[a][u] else s.threads[t].vc[u])
              && (forall u: Tid :: u != t ==> s'.threads[u] == s.threads[u])
              && s'.mutexes == s.mutexes[rec.slot := s.mutexes[rec.slot].(ownerTid := t)]
            else s' == s && rec == RNone
  {
    ActorRegistered(es, n);
    HistoryStep(es, n);
    MomentIsMap(es, n);
    var s := Actor(es, n);
    assert s.mutexes == History(es)[n].mutexes;
    LockMeans(s, LiveMutexes(es[..n]), s.tidOf[es[n].os], es[n].op.addr);
  }

  /** A post-unlock of a live mutex is a release by its thread and changes no thread's clock; of any
      other it does nothing. */
  lemma {:induction false} UnlockEntry(es: seq<Event>, n: nat)
    requires Run(es).Running? && CreatesOnlyDead(es) && n < |es| && es[n].By? && es[n].op.PostUnlock?
    ensures Run(es[..n]).Running? && Valid(History(es)[n]) && Registered(History(es)[n], es[n].os).Some?
    ensures Valid(History(es)[n + 1])
    ensures var s, s', rec := Actor(es, n), History(es)[n + 1], Run(es).log[n];
            var t, a := s.tidOf[es[n].os], es[n].op.addr;
            if a in LiveMutexes(es[..n]) then
              && rec.RRelease? && rec.tid == t && rec.before == s.threads[t].vc && s'.threads == s.threads
              && rec.slot < MAX_MUTEXES && s.mutexes[rec.slot].active && s.mutexes[rec.slot].addr == a
            else s' == s && rec == RNone
  {
    ActorRegistered(es, n);
    HistoryStep(es, n);
    MomentIsMap(es, n);
    var s := Actor(es, n);
    assert s.mutexes == History(es)[n].mutexes;
    UnlockMeans(s, LiveMutexes(es[..n]), s.tidOf[es[n].os], es[n].op.addr);
  }

  /** Creating a mutex, live or not, leaves an entry with the zero clock for the next find, unless
      all slots are taken by others; no thread's clock changes. */
  lemma {:induction false} CreateEntry(es: seq<Event>, n: nat)
    requires Run(es).Running? && n < |es| && es[n].Create?
    ensures Valid(History(es)[n]) && Valid(History(es)[n + 1])
    ensures var s, s', a := History(es)[n], History(es)[n + 1], es[n].addr;
            var f := FindMutex(s', a, false);
            && s'.threads == s.threads && s'.shadow == s.shadow && s'.tidOf == s.tidOf
            && (f.None? <==> forall k :: 0 <= k < MAX_MUTEXES ==> s.mutexes[k].active && s.mutexes[k].addr != a)
            && (f.None? ==> s' == s && Run(es).log[n] == RNone)
            && (f.Some? ==>
                  && Run(es).log[n] == RCreate(f.value)
                  && s'.mutexes == s.mutexes[f.value := Mutex(a, ZeroClock(), -1, true)])
  {
    HistoryStep(es, n);
    CreateMeans(History(es)[n], es[n].addr);
  }

  lemma CreateMeans(s: State, addr: nat)
    requires Valid(s)
    ensures var Continue(s', rec) := CreateStep(s, addr);
            var f := FindMutex(s', addr, false);
            && (f.None? <==> forall k :: 0 <= k < MAX_MUTEXES ==> s.mutexes[k].active && s.mutexes[k].addr != addr)
            && (f.None? ==> s' == s && rec == RNone)
            && (f.Some? ==>
                  && rec == RCreate(f.value)
                  && s'.mutexes == s.mutexes[f.value := Mutex(addr, ZeroClock(), -1, true)])
  {
    var ks, found := MutexKeys(s.mutexes), FindMutex(s, addr, true);
    ProbeIsFirstStop(ks, MutexHash(addr), addr, true);
    if found.Some? {
      CreatedKey(s, addr, found.value);
      FoundAgain(ks, MutexHash(addr), addr, found.value);
    } else {
      forall k | 0 <= k < MAX_MUTEXES ensures s.mutexes[k].active && s.mutexes[k].addr != addr {
        assert !Stops(ks, k, addr, true) && ks[k] == MutexKey(s.mutexes[k]);
      }
      ProbeIsFirstStop(ks, MutexHash(addr), addr, false);
      if FindMutex(s, addr, false).Some? {
        assert Stops(ks, FindMutex(s, addr, false).value, addr, true);
      }
    }
  }

  /** A key put where an allocating probe ended is where the next probe ends. */
  lemma FoundAgain(ks: Keys, start: nat, key: nat, k: nat)
    requires start < |ks| && k < |ks| && IsFirstStop(ks, start, key, true, Some(k))
    ensures Probe(ks[k := Some(key)], start, key, false) == Some(k)
  {
    var ks' := ks[k := Some(key)];
    forall d: nat | d < Distance(start, k, |ks|) ensures !Stops(ks', Wrap(start, d, |ks|), key, false) {
      assert !Stops(ks, Wrap(start, d, |ks|), key, true);
    }
    ProbeIsFirstStop(ks', start, key, false);
    FirstStopUnique(ks', start, key, false, Some(k), Probe(ks', start, key, false));
  }

  /** Creating keeps addresses unique if and only if the mutex is not live, or every slot from its
      hash index up to its own is active. */
  lemma CreateKeepsUniqueIff(s: State, addr: nat)
    requires Valid(s) && Unique(MutexKeys(s.mutexes))
    ensures Unique(MutexKeys(CreateStep(s, addr).s.mutexes)) <==>
            forall k, d: nat ::
              0 <= k < MAX_MUTEXES && s.mutexes[k].active && s.mutexes[k].addr == addr
              && d < Distance(MutexHash(addr), k, MAX_MUTEXES) ==>
                s.mutexes[Wrap(MutexHash(addr), d, MAX_MUTEXES)].active
  {
    var ks := MutexKeys(s.mutexes);
    assert MutexKeys(CreateStep(s, addr).s.mutexes) == Insert(ks, MutexHash(addr), addr);
    InsertKeepsUniqueIff(ks, MutexHash(addr), addr);
    forall k | 0 <= k < MAX_MUTEXES
      ensures ks[k] == Some(addr) <==> s.mutexes[k].active && s.mutexes[k].addr == addr
      ensures ks[k].Some? <==> s.mutexes[k].active
    {
    }
  }

  /** Creating a live mutex behind a hole does enter it twice: addresses 0 and 8192 hash alike,
      and the run creates both, destroys the first and creates the second again. */
  lemma {:induction false} RecreatedBehindHole(es: seq<Event>)
    requires |es| == 4 && es[0] == Create(0) && es[1] == Create(8192) && es[2] == Destroy(0) && es[3] == Create(8192)
    ensures Run(es).Running? && !Unique(MutexKeys(Run(es).s.mutexes))
  {
    HoleBeforeLiveMutex(es[..3]);
    var s := Run(es[..3]).s;
    EnteredTwice(s, 8192);
    RunStep(es);
  }

  lemma EnteredTwice(s: State, addr: nat)
    requires Valid(s) && MutexHash(addr) == 0
    requires MutexKeys(s.mutexes)[0] == None && MutexKeys(s.mutexes)[1] == Some(addr)
    ensures !Unique(MutexKeys(CreateStep(s, addr).s.mutexes))
  {
    FindMutexAtHash(s, addr, true);
    CreatedKey(s, addr, 0);
    var ks := MutexKeys(CreateStep(s, addr).s.mutexes);
    assert ks[0] == Some(addr) && ks[1] == Some(addr);
  }

  lemma {:induction false} HoleBeforeLiveMutex(es: seq<Event>)
    requires |es| == 3 && es[0] == Create(0) && es[1] == Create(8192) && es[2] == Destroy(0)
    ensures Run(es).Running?
    ensures MutexKeys(Run(es).s.mutexes)[0] == None && MutexKeys(Run(es).s.mutexes)[1] == Some(8192)
  {
    TwoLiveMutexes(es[..2]);
    FindMutexAtHash(Run(es[..2]).s, 0, false);
    RunStep(es);
  }

  lemma {:induction false} TwoLiveMutexes(es: seq<Event>)
    requires |es| == 2 && es[0] == Create(0) && es[1] == Create(8192)
    ensures Run(es).Running?
    ensures MutexKeys(Run(es).s.mutexes)[0] == Some(0) && MutexKeys(Run(es).s.mutexes)[1] == Some(8192)
  {
    OneLiveMutex(es[..1]);
    FindMutexSecond(Run(es[..1]).s, 8192, true);
    CreatedKey(Run(es[..1]).s, 8192, 1);
    RunStep(es);
  }

  lemma {:induction false} OneLiveMutex(es: seq<Event>)
    requires |es| == 1 && es[0] == Create(0)
    ensures Run(es).Running?
    ensures MutexKeys(Run(es).s.mutexes)[0] == Some(0) && MutexKeys(Run(es).s.mutexes)[1] == None
  {
    FindMutexAtHash(Initial(), 0, true);
    CreatedKey(Initial(), 0, 0);
    assert es[..0] == [];
    RunStep(es);
  }

  /** Creating a mutex enters its key into the slot the lookup arrives at. */
  lemma CreatedKey(s: State, addr: nat, k: nat)
    requires Valid(s) && FindMutex(s, addr, true) == Some(k)
    ensures MutexKeys(CreateStep(s, addr).s.mutexes) == MutexKeys(s.mutexes)[k := Some(addr)]
  {
  }

  lemma FindMutexSecond(s: State, addr: nat, alloc: bool)
    requires Valid(s) && MutexHash(addr) == 0
    requires !Stops(MutexKeys(s.mutexes), 0, addr, alloc) && Stops(MutexKeys(s.mutexes), 1, addr, alloc)
    ensures FindMutex(s, addr, alloc) == Some(1)
  {
    var ks := MutexKeys(s.mutexes);
    ProbeIsFirstStop(ks, 0, addr, alloc);
    FirstStopUnique(ks, 0, addr, alloc, Some(1), FindMutex(s, addr, alloc));
  }

  // ----- copy on release -----

  predicate ForeignOverwrite(r: Rec, t: nat, slot: nat) {
    (r.RCreate? && r.slot == slot) || (r.RRelease? && r.slot == slot && r.tid != t)
  }

  predicate AcquireBy(r: Rec, t: nat, slot: nat) {
    r.RAcquire? && r.tid == t && r.slot == slot
  }

  /** `t` has acquired the entry and nobody else has released or created it since. */
  ghost predicate Holds(log: Log, t: nat, slot: nat) {
    exists i: nat :: i < |log| && AcquireBy(log[i], t, slot)
      && forall x :: i < x < |log| ==> !ForeignOverwrite(log[x], t, slot)
  }

  /** Lock discipline for one entry from position `from` to before `to`: whoever releases it holds it. */
  ghost predicate Disciplined(log: Log, slot: nat, from: nat, to: nat)
    requires to <= |log|
  {
    forall n :: from <= n < to && log[n].RRelease? && log[n].slot == slot ==> Holds(log[..n], log[n].tid, slot)
  }

  ghost predicate Below(a: Clock, b: Clock) {
    forall x: Tid :: a[x] <= b[x]
  }

  ghost predicate HolderCovers(s: State, log: Log)
    requires Valid(s)
  {
    forall t: Tid, k: nat :: k < MAX_MUTEXES && Holds(log, t, k) ==>
      Below(s.mutexes[k].vc, Inc(s.threads[t].vc, t))
  }

  /** What any step does to the clocks. */
  ghost predicate ClockEffect(s: State, s': State, r: Rec)
    requires Valid(s) && Valid(s')
  {
    && (forall t: Tid :: 1 <= t <= s.threadCount ==> Below(s.threads[t].vc, s'.threads[t].vc))
    && (forall k: nat :: k < MAX_MUTEXES && !Overwrites(r, k) ==> s'.mutexes[k].vc == s.mutexes[k].vc)
    && (r.RRelease? ==> r.slot < MAX_MUTEXES && s'.mutexes[r.slot].vc == Inc(r.before, r.tid))
    && (r.RRelease? && r.tid <= s.threadCount ==> r.before == s.threads[r.tid].vc)
    && (r.RAcquire? ==> r.slot < MAX_MUTEXES && Below(s.mutexes[r.slot].vc, s'.threads[r.tid].vc))
  }

  lemma OpEffect(s: State, t: Tid, op: Op)
    requires Valid(s) && 1 <= t <= s.threadCount && OpStep(s, t, op).Continue?
    ensures ClockEffect(s, OpStep(s, t, op).s, OpStep(s, t, op).rec)
  {
    match op
    case FuncEntry =>
    case Access(addr, isWrite) => AccessEffect(s, t, addr, isWrite);
    case PostLock(addr) => LockEffect(s, t, addr);
    case PostUnlock(addr) => UnlockEffect(s, t, addr);
  }

  lemma AccessEffect(s: State, t: Tid, addr: nat, isWrite: bool)
    requires Valid(s) && 1 <= t <= s.threadCount && AccessStep(s, t, addr, isWrite).Continue?
    ensures ClockEffect(s, AccessStep(s, t, addr, isWrite).s, AccessStep(s, t, addr, isWrite).rec)
  {
  }

  lemma LockEffect(s: State, t: Tid, addr: nat)
    requires Valid(s) && 1 <= t <= s.threadCount
    ensures ClockEffect(s, LockStep(s, t, addr).s, LockStep(s, t, addr).rec)
  {
  }

  lemma UnlockEffect(s: State, t: Tid, addr: nat)
    requires Valid(s) && 1 <= t <= s.threadCount
    ensures ClockEffect(s, UnlockStep(s, t, addr).s, UnlockStep(s, t, addr).rec)
  {
  }

  lemma StepEffect(s: State, e: Event)
    requires Valid(s) && Step(s, e).Continue?
    ensures ClockEffect(s, Step(s, e).s, Step(s, e).rec)
  {
    match e
    case Create(addr) => assert CreateStep(s, addr).s.threads == s.threads;
    case Destroy(addr) => assert DestroyStep(s, addr).s.threads == s.threads;
    case By(o, op) =>
      var s1 := Registered(s, o).value;
      assert s1.mutexes == s.mutexes && forall t: Tid :: 1 <= t <= s.threadCount ==> s1.threads[t] == s.threads[t];
      OpEffect(s1, s1.tidOf[o], op);
  }

  lemma {:induction false} HoldsAppend(log: Log, r: Rec, t: nat, slot: nat)
    ensures Holds(log + [r], t, slot) <==>
            AcquireBy(r, t, slot) || (Holds(log, t, slot) && !ForeignOverwrite(r, t, slot))
  {
    var log' := log + [r];
    assert forall i :: 0 <= i < |log| ==> log'[i] == log[i];
    assert log'[|log|] == r;
    if Holds(log, t, slot) && !ForeignOverwrite(r, t, slot) {
      var i: nat :| i < |log| && AcquireBy(log[i], t, slot)
                    && forall x :: i < x < |log| ==> !ForeignOverwrite(log[x], t, slot);
      assert AcquireBy(log'[i], t, slot);
    }
    if Holds(log', t, slot) && !AcquireBy(r, t, slot) {
      var i: nat :| i < |log'| && AcquireBy(log'[i], t, slot)
                    && forall x :: i < x < |log'| ==> !ForeignOverwrite(log'[x], t, slot);
      assert AcquireBy(log[i], t, slot) && forall x :: i < x < |log| ==> !ForeignOverwrite(log[x], t, slot);
      assert !ForeignOverwrite(log'[|log|], t, slot);
    }
  }

  lemma {:induction false} HoldersHaveEntries(s: State, log: Log, t: Tid, slot: nat)
    requires Inv(s, log) && Holds(log, t, slot)
    ensures 1 <= t <= s.threadCount
  {
    var i: nat :| i < |log| && AcquireBy(log[i], t, slot);
    assert ByThread(log[i], t);
  }

  lemma {:induction false} StepKeepsHolders(s: State, log: Log, e: Event)
    requires Inv(s, log) && HolderCovers(s, log) && Step(s, e).Continue?
    ensures HolderCovers(Step(s, e).s, log + [Step(s, e).rec])
  {
    var Continue(s', r) := Step(s, e);
    StepEffect(s, e);
    forall t: Tid, k: nat | k < MAX_MUTEXES && Holds(log + [r], t, k)
      ensures Below(s'.mutexes[k].vc, Inc(s'.threads[t].vc, t))
    {
      HoldsAppend(log, r, t, k);
      if AcquireBy(r, t, k) {
        assert Below(s.mutexes[k].vc, s'.threads[t].vc);
      } else {
        HoldersHaveEntries(s, log, t, k);
        assert Below(s.threads[t].vc, s'.threads[t].vc);
      }
    }
  }

  lemma {:induction false} HoldersCover(es: seq<Event>)
    requires Run(es).Running?
    ensures HolderCovers(Run(es).s, Run(es).log)
    decreases |es|
  {
    if es != [] {
      var es0 := es[..|es| - 1];
      HoldersCover(es0);
      RunKeeps(es0);
      StepKeepsHolders(Run(es0).s, Run(es0).log, es[|es| - 1]);
    }
  }

  lemma {:induction false} StepDoesNotDecrease(s: State, log: Log, e: Event, k: nat)
    requires Inv(s, log) && HolderCovers(s, log) && k < MAX_MUTEXES && Step(s, e).Continue?
    requires var r := Step(s, e).rec; r != RCreate(k) && (r.RRelease? && r.slot == k ==> Holds(log, r.tid, k))
    ensures Below(s.mutexes[k].vc, Step(s, e).s.mutexes[k].vc)
  {
    StepEffect(s, e);
    var r := Step(s, e).rec;
    if r.RRelease? && r.slot == k {
      HoldersHaveEntries(s, log, r.tid, k);
    }
  }

  /** The invariants hold at every moment of a run. */
  lemma {:induction false} AtMoment(es: seq<Event>, n: nat)
    requires Run(es).Running? && n <= |es|
    ensures Inv(History(es)[n], Run(es).log[..n]) && HolderCovers(History(es)[n], Run(es).log[..n])
  {
    HistoryAt(es, n);
    RunPrefix(es, n);
    RunKeeps(es[..n]);
    HoldersCover(es[..n]);
  }

  /** Copy-on-release loses nothing under lock discipline: between any two moments of a run
      without a creation of the entry, in which only holders release it, no component of its
      clock decreases, whatever happens to other entries or happened before. */
  lemma {:induction false} MutexClockNeverDecreases(es: seq<Event>, i: nat, j: nat, k: nat)
    requires Run(es).Running? && i <= j <= |es| && k < MAX_MUTEXES && Disciplined(Run(es).log, k, i, j)
    requires forall x :: i <= x < j ==> Run(es).log[x] != RCreate(k)
    ensures Valid(History(es)[i]) && Valid(History(es)[j])
    ensures Below(History(es)[i].mutexes[k].vc, History(es)[j].mutexes[k].vc)
  {
    var h := History(es);
    forall n: nat | i <= n <= j ensures Valid(h[n]) {
      AtMoment(es, n);
    }
    forall n: nat | i <= n < j ensures Below(h[n].mutexes[k].vc, h[n + 1].mutexes[k].vc) {
      MomentDoesNotDecrease(es, n, k);
    }
    ClimbsOverall(h, i, j, k);
  }

  lemma {:induction false} ClimbsOverall(h: seq<State>, i: nat, j: nat, k: nat)
    requires i <= j < |h| && k < MAX_MUTEXES && forall n: nat :: i <= n <= j ==> |h[n].mutexes| == MAX_MUTEXES
    requires forall n: nat :: i <= n < j ==> Below(h[n].mutexes[k].vc, h[n + 1].mutexes[k].vc)
    ensures Below(h[i].mutexes[k].vc, h[j].mutexes[k].vc)
    decreases j
  {
    if i < j {
      ClimbsOverall(h, i, j - 1, k);
      BelowTransitive(h[i].mutexes[k].vc, h[j - 1].mutexes[k].vc, h[j].mutexes[k].vc);
    }
  }

  lemma {:induction false} MomentDoesNotDecrease(es: seq<Event>, n: nat, k: nat)
    requires Run(es).Running? && n < |es| && k < MAX_MUTEXES && Disciplined(Run(es).log, k, n, n + 1)
    requires Run(es).log[n] != RCreate(k)
    ensures Valid(History(es)[n]) && Valid(History(es)[n + 1])
    ensures Below(History(es)[n].mutexes[k].vc, History(es)[n + 1].mutexes[k].vc)
  {
    AtMoment(es, n);
    HistoryStep(es, n);
    StepDoesNotDecrease(History(es)[n], Run(es).log[..n], es[n], k);
  }

  /** So each acquirer dominates the clock every earlier holder had at its release. */
  lemma {:induction false} AcquirerDominatesHolders(es: seq<Event>, i: nat, j: nat, k: nat)
    requires Run(es).Running? && i < j < |es| && k < MAX_MUTEXES && Disciplined(Run(es).log, k, i + 1, j)
    requires Run(es).log[i].RRelease? && Run(es).log[i].slot == k
    requires Run(es).log[j].RAcquire? && Run(es).log[j].slot == k
    requires forall x :: i < x < j ==> Run(es).log[x] != RCreate(k)
    ensures Valid(History(es)[j + 1]) && Below(Run(es).log[i].before, History(es)[j + 1].threads[Run(es).log[j].tid].vc)
  {
    ReleasePublishes(es, i, k);
    AcquireReceives(es, j, k);
    MutexClockNeverDecreases(es, i + 1, j, k);
    var h := History(es);
    BelowChain(Run(es).log[i].before, h[i + 1].mutexes[k].vc, h[j].mutexes[k].vc,
               h[j + 1].threads[Run(es).log[j].tid].vc);
  }

  lemma BelowChain(a: Clock, b: Clock, c: Clock, d: Clock)
    requires Below(a, b) && Below(b, c) && Below(c, d)
    ensures Below(a, d)
  {
    BelowTransitive(a, b, c);
    BelowTransitive(a, c, d);
  }

  /** A release leaves the holder's clock below the entry's. */
  lemma {:induction false} ReleasePublishes(es: seq<Event>, i: nat, k: nat)
    requires Run(es).Running? && i < |es| && k < MAX_MUTEXES
    requires Run(es).log[i].RRelease? && Run(es).log[i].slot == k
    ensures Valid(History(es)[i + 1]) && Below(Run(es).log[i].before, History(es)[i + 1].mutexes[k].vc)
  {
    HistoryStep(es, i);
    StepEffect(History(es)[i], es[i]);
  }

  /** An acquire leaves the entry's clock below the acquirer's. */
  lemma {:induction false} AcquireReceives(es: seq<Event>, j: nat, k: nat)
    requires Run(es).Running? && j < |es| && k < MAX_MUTEXES
    requires Run(es).log[j].RAcquire? && Run(es).log[j].slot == k
    ensures Valid(History(es)[j]) && Valid(History(es)[j + 1])
    ensures Below(History(es)[j].mutexes[k].vc, History(es)[j + 1].threads[Run(es).log[j].tid].vc)
  {
    HistoryStep(es, j);
    StepEffect(History(es)[j], es[j]);
  }

  lemma BelowTransitive(a: Clock, b: Clock, c: Clock)
    requires Below(a, b) && Below(b, c)
    ensures Below(a, c)
  {
    forall x: Tid ensures a[x] <= c[x] {
      assert a[x] <= b[x] && b[x] <= c[x];
    }
  }
}
