/** Where the race verdict departs from happens-before. */
module TsanVerdicts {
  import opened Common
  import opened ProbeTable
  import opened TsanState
  import opened HappensBefore
  import opened TsanClocks
  import opened TsanMutexes
  import opened TsanRaces

  /** An access ordered after the earlier one is reported all the same: `t` has heard of a release
      after the earlier access (stamp `c`, by `p`), but `p` has moved on since, and `p` lags behind `t`. */
  ghost predicate FalseAlarm(s: State, t: Tid, p: Tid, c: nat)
    requires Valid(s)
  {
    c + 2 <= s.threads[t].vc[p] < Own(s, p) && s.threads[p].vc[t] < Own(s, t)
  }

  /** An unordered access goes unreported: the one release of `p` that `t` has heard of came right
      before the earlier access and `p` has not moved since, or `p` has heard of a release of `t`
      that `t` has not moved past. */
  ghost predicate Miss(s: State, t: Tid, p: Tid, c: nat)
    requires Valid(s)
  {
    s.threads[t].vc[p] <= c + 1 && (Own(s, p) == s.threads[t].vc[p] || Own(s, t) <= s.threads[p].vc[t])
  }

  /** For an access that clashes with the last recorded one, event `i`, exactly when the verdict is
      not what happens-before says, in terms of clocks that can be read before the access. */
  lemma {:induction false} VerdictVersusHappensBefore(es: seq<Event>, o: nat, addr: nat, isWrite: bool, i: nat)
    requires Run(es).Running? && Registered(Run(es).s, o).Some? && Clash(es, Run(es).log, o, addr, isWrite, i)
    ensures var Running(s0, log) := Run(es);
            var s := Registered(s0, o).value;
            var t := s.tidOf[o];
            var reported, ordered := Step(s0, By(o, Access(addr, isWrite))).Race?, HBPresent(log, i, t);
            && es[i].os in s.tidOf && log[i].RAccess? && log[i].tid == s.tidOf[es[i].os]
            && (reported && ordered <==> FalseAlarm(s, t, s.tidOf[es[i].os], Stamp(log[i])))
            && (!reported && !ordered <==> Miss(s, t, s.tidOf[es[i].os], Stamp(log[i])))
  {
    ClashIsConflict(es, o, addr, isWrite);
    RunKeeps(es);
    ShadowIsLastAccessMap(es);
    MomentVerdict(Run(es).s, Run(es).log, o, addr, isWrite);
  }

  lemma {:induction false} MomentVerdict(s0: State, log: Log, o: nat, addr: nat, isWrite: bool)
    requires Inv(s0, log) && ShadowInv(s0, log) && Registered(s0, o).Some?
    requires Conflicts(log, Registered(s0, o).value.tidOf[o], addr, isWrite)
    ensures var s := Registered(s0, o).value;
            var t, i := s.tidOf[o], LastAccess(log, addr).value;
            var reported, ordered := Step(s0, By(o, Access(addr, isWrite))).Race?, HBPresent(log, i, t);
            && (reported && ordered <==> FalseAlarm(s, t, log[i].tid, Stamp(log[i])))
            && (!reported && !ordered <==> Miss(s, t, log[i].tid, Stamp(log[i])))
  {
    var s := Registered(s0, o).value;
    RegisterKeeps(s0, log, o);
    assert ShadowInv(s, log) by { assert s.shadow == s0.shadow; }
    SeenIsHB(log, LastAccess(log, addr).value);
    StateVerdict(s, log, s.tidOf[o], addr, isWrite);
  }

  lemma {:induction false} StateVerdict(s: State, log: Log, t: Tid, addr: nat, isWrite: bool)
    requires Inv(s, log) && ShadowInv(s, log) && 1 <= t <= s.threadCount && Conflicts(log, t, addr, isWrite)
    ensures var i := LastAccess(log, addr).value;
            var reported, ordered := AccessStep(s, t, addr, isWrite).Race?, i in Seen(log, t);
            && (reported && ordered <==> FalseAlarm(s, t, log[i].tid, Stamp(log[i])))
            && (!reported && !ordered <==> Miss(s, t, log[i].tid, Stamp(log[i])))
  {
    var i := LastAccess(log, addr).value;
    LookupFindsLastAccess(s, log, addr);
    SeenIffTwoAhead(s, log, i, log[i].tid, t);
    assert ByThread(log[i], log[i].tid);
    assert Stamp(log[i]) + 1 <= Own(s, log[i].tid);
  }

  // ----- single steps at a free or matching hash slot -----

  lemma FindShadowAtHash(s: State, addr: nat)
    requires Valid(s) && Stops(ShadowKeys(s.shadow), ShadowHash(addr), addr, true)
    ensures FindShadow(s, addr) == Some(ShadowHash(addr))
  {
    var ks := ShadowKeys(s.shadow);
    ProbeIsFirstStop(ks, ShadowHash(addr), addr, true);
    FirstStopUnique(ks, ShadowHash(addr), addr, true, Some(ShadowHash(addr)), FindShadow(s, addr));
  }

  // ----- a false alarm -----

  /** The addresses of the examples: X and Y hash to different shadow slots. */
  const X: nat := 0
  const Y: nat := 16
  const M: nat := 8

  lemma Hashes()
    ensures ShadowHash(X) == 0 && ShadowHash(Y) == 16 && MutexHash(M) == 1
  {
  }

  /** Thread 1 writes X, hands it over through M and works on elsewhere; then thread 2 takes M. */
  function HandOver(i: nat): Event {
    if i == 0 then By(1, Access(X, true))
    else if i == 1 then Create(M)
    else if i == 2 then By(1, PostUnlock(M))
    else if i <= 4 then By(1, Access(Y, true))
    else By(2, PostLock(M))
  }

  ghost predicate FollowsHandOver(es: seq<Event>) {
    forall i :: 0 <= i < |es| ==> es[i] == HandOver(i)
  }

  /** The state after `n` of these events, 1 <= n <= 5, as far as it matters. */
  ghost predicate Scene(s: State, log: Log, n: nat) {
    && Valid(s) && s.threadCount == 1 && s.tidOf == map[1 := 1]
    && s.threads[0].vc[0] == 0 && s.threads[1].vc[1] == (if n <= 3 then 2 else n - 1) && s.threads[1].vc[2] == 0
    && s.shadow[0].active && s.shadow[0].addr == X && s.shadow[0].tid == 1 && s.shadow[0].isWrite
    && (s.shadow[16].active ==> s.shadow[16].addr == Y && s.shadow[16].tid == 1)
    && (s.mutexes[1].active <==> n >= 2) && (n >= 2 ==> s.mutexes[1].addr == M)
    && (n >= 3 ==> s.mutexes[1].vc[1] == 3 && s.mutexes[1].vc[2] == 0)
    && n >= 1 && |log| == n && log[0].RAccess? && log[0].tid == 1 && Stamp(log[0]) == 1 && LastAccess(log, X) == Some(0)
  }

  lemma {:induction false} SceneStarts(es: seq<Event>)
    requires |es| == 1 && FollowsHandOver(es)
    ensures Run(es).Running? && Scene(Run(es).s, Run(es).log, 1)
  {
    Hashes();
    FindShadowAtHash(Registered(Initial(), 1).value, X);
    assert es[..0] == [];
    RunStep(es);
  }

  lemma {:induction false} SceneContinues(s: State, log: Log, n: nat) returns (s': State, rec: Rec)
    requires 1 <= n <= 4 && Scene(s, log, n)
    ensures Step(s, HandOver(n)) == Continue(s', rec) && Scene(s', log + [rec], n + 1)
  {
    Hashes();
    if n == 1 {
      FindMutexAtHash(s, M, true);
    } else if n == 2 {
      FindMutexAtHash(s, M, false);
    } else {
      FindShadowAtHash(s, Y);
    }
    s', rec := Step(s, HandOver(n)).s, Step(s, HandOver(n)).rec;
    LastAccessAppend(log, rec);
  }

  lemma {:induction false} ScenePlays(es: seq<Event>) returns (s: State, log: Log)
    requires 1 <= |es| <= 5 && FollowsHandOver(es)
    ensures Run(es).Running? && Run(es).s == s && Run(es).log == log && Scene(s, log, |es|)
    decreases |es|
  {
    if |es| == 1 {
      SceneStarts(es);
      return Run(es).s, Run(es).log;
    }
    var n := |es| - 1;
    var s0, log0 := ScenePlays(es[..n]);
    var s', rec := SceneContinues(s0, log0, n);
    s, log := s', log0 + [rec];
    RunStep(es);
  }

  lemma {:induction false} SecondThreadTakesOver(s: State, log: Log)
    requires Scene(s, log, 5)
    ensures var r := Step(s, HandOver(5));
            && r.Continue? && LastAccess(log + [r.rec], X) == Some(0)
            && r.s.threads[2].vc[1] == 3 && Step(r.s, By(2, Access(X, false))).Race?
  {
    Hashes();
    var s1 := Registered(s, 2).value;
    FindMutexAtHash(s1, M, false);
    var s2 := Step(s, HandOver(5)).s;
    FindShadowAtHash(s2, X);
    assert s2.tidOf[2] == 2 && s2.threads[2].vc[2] == 1 && s2.threads[1].vc[1] == 4 && s2.threads[1].vc[2] == 0;
    LastAccessAppend(log, Step(s, HandOver(5)).rec);
  }

  /** Then thread 2's read of X is ordered after thread 1's write, and reported as a race. */
  lemma {:induction false} OrderedAccessIsReported(es: seq<Event>)
    requires |es| == 6 && FollowsHandOver(es)
    ensures Run(es).Running? && LastAccess(Run(es).log, X) == Some(0) && HBPresent(Run(es).log, 0, 2)
    ensures Step(Run(es).s, By(2, Access(X, false))).Race?
  {
    var s, log := ScenePlays(es[..5]);
    SecondThreadTakesOver(s, log);
    RunStep(es);
    assert Run(es).log[0] == log[0];
    ClockCapturesHB(es, 0, 1, 2);
  }

  // ----- a miss -----

  /** Thread 1 releases M, thread 2 acquires it and then writes X. */
  function Overtake(i: nat): Event {
    if i == 0 then By(1, FuncEntry)
    else if i == 1 then Create(M)
    else if i == 2 then By(1, PostUnlock(M))
    else if i == 3 then By(2, PostLock(M))
    else By(2, Access(X, true))
  }

  ghost predicate FollowsOvertake(es: seq<Event>) {
    forall i :: 0 <= i < |es| ==> es[i] == Overtake(i)
  }

  /** The state after `n` of these events, 1 <= n <= 3, as far as it matters. */
  ghost predicate OtherScene(s: State, log: Log, n: nat) {
    && Valid(s) && s.threadCount == 1 && s.tidOf == map[1 := 1]
    && s.threads[0].vc[0] == 0 && s.threads[1].vc[1] == 1 && s.threads[1].vc[2] == 0 && !s.shadow[0].active
    && (s.mutexes[1].active <==> n >= 2) && (n >= 2 ==> s.mutexes[1].addr == M)
    && (n >= 3 ==> s.mutexes[1].vc[1] == 2 && s.mutexes[1].vc[2] == 0)
    && |log| == n
  }

  lemma {:induction false} OtherSceneStarts(es: seq<Event>)
    requires |es| == 1 && FollowsOvertake(es)
    ensures Run(es).Running? && OtherScene(Run(es).s, Run(es).log, 1)
  {
    assert es[..0] == [];
    RunStep(es);
  }

  lemma {:induction false} OtherSceneContinues(s: State, log: Log, n: nat) returns (s': State, rec: Rec)
    requires 1 <= n <= 2 && OtherScene(s, log, n)
    ensures Step(s, Overtake(n)) == Continue(s', rec) && OtherScene(s', log + [rec], n + 1)
  {
    Hashes();
    FindMutexAtHash(s, M, n == 1);
    s', rec := Step(s, Overtake(n)).s, Step(s, Overtake(n)).rec;
  }

  lemma {:induction false} OtherScenePlays(es: seq<Event>) returns (s: State, log: Log)
    requires 1 <= |es| <= 3 && FollowsOvertake(es)
    ensures Run(es).Running? && Run(es).s == s && Run(es).log == log && OtherScene(s, log, |es|)
    decreases |es|
  {
    if |es| == 1 {
      OtherSceneStarts(es);
      return Run(es).s, Run(es).log;
    }
    var n := |es| - 1;
    var s0, log0 := OtherScenePlays(es[..n]);
    var s', rec := OtherSceneContinues(s0, log0, n);
    s, log := s', log0 + [rec];
    RunStep(es);
  }

  /** What is left after the overtaking write, as far as it matters. */
  ghost predicate Overtaken(s: State, log: Log) {
    && Valid(s) && s.threads[1].vc[2] == 0 && Step(s, By(1, Access(X, true))).Continue?
    && |log| == 5 && log[4].RAccess? && log[4].tid == 2 && log[4].addr == X && log[4].isWrite && Stamp(log[4]) == 1
  }

  lemma {:induction false} Acquires(s: State, log: Log) returns (s': State, rec: Rec)
    requires OtherScene(s, log, 3)
    ensures Step(s, Overtake(3)) == Continue(s', rec) && Valid(s') && s'.tidOf == map[1 := 1, 2 := 2]
    ensures s'.threadCount == 2 && !s'.shadow[0].active && s'.threads[0].vc[0] == 0
    ensures s'.threads[1].vc[1] == 1 && s'.threads[1].vc[2] == 0 && s'.threads[2].vc[1] == 2 && s'.threads[2].vc[2] == 1
  {
    Hashes();
    FindMutexAtHash(Registered(s, 2).value, M, false);
    s', rec := Step(s, Overtake(3)).s, Step(s, Overtake(3)).rec;
  }

  lemma {:induction false} Writes(s: State, log: Log) returns (s': State, rec: Rec)
    requires Valid(s) && |log| == 4 && s.tidOf == map[1 := 1, 2 := 2]
    requires s.threadCount == 2 && !s.shadow[0].active && s.threads[0].vc[0] == 0
    requires s.threads[1].vc[1] == 1 && s.threads[1].vc[2] == 0 && s.threads[2].vc[1] == 2 && s.threads[2].vc[2] == 1
    ensures Step(s, Overtake(4)) == Continue(s', rec) && Overtaken(s', log + [rec])
  {
    Hashes();
    FindShadowAtHash(s, X);
    s', rec := Step(s, Overtake(4)).s, Step(s, Overtake(4)).rec;
    FindShadowAtHash(s', X);
  }

  lemma {:induction false} OvertakePlays(es: seq<Event>) returns (s: State, log: Log)
    requires |es| == 5 && FollowsOvertake(es)
    ensures Run(es).Running? && Run(es).s == s && Run(es).log == log && Overtaken(s, log)
  {
    var es4 := es[..4];
    var s3, log3 := OtherScenePlays(es4[..3]);
    var s4, rec3 := Acquires(s3, log3);
    RunStep(es4);
    var s5, rec4 := Writes(s4, log3 + [rec3]);
    RunStep(es);
    s, log := s5, log3 + [rec3] + [rec4];
  }

  /** Then thread 1's write of X is not ordered after thread 2's, and no race is reported. */
  lemma {:induction false} UnorderedAccessIsMissed(es: seq<Event>)
    requires |es| == 5 && FollowsOvertake(es)
    ensures Run(es).Running? && LastAccess(Run(es).log, X) == Some(4) && !HBPresent(Run(es).log, 4, 1)
    ensures Run(es).log[4].tid == 2 && Run(es).log[4].isWrite
    ensures Step(Run(es).s, By(1, Access(X, true))).Continue?
  {
    var s, log := OvertakePlays(es);
    ClockCapturesHB(es, 4, 2, 1);
  }
}
