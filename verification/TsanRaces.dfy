/** The shadow table as a map from addresses to their last recorded access,
    and the exact meaning of a race report. */
module TsanRaces {
  import opened Common
  import opened ProbeTable
  import opened TsanState
  import opened HappensBefore
  import opened TsanClocks
  import opened TsanEvents

  /** The position of the last recorded access to an address. */
  function LastAccess(log: Log, addr: nat): (r: Option<nat>)
    ensures r.Some? ==> r.value < |log| && log[r.value].RAccess? && log[r.value].addr == addr
    ensures r.Some? ==> forall j :: r.value < j < |log| ==> !(log[j].RAccess? && log[j].addr == addr)
    ensures r.None? ==> forall j :: 0 <= j < |log| ==> !(log[j].RAccess? && log[j].addr == addr)
  {
    if log == [] then None
    else
      var n := |log| - 1;
      if log[n].RAccess? && log[n].addr == addr then Some(n) else LastAccess(log[..n], addr)
  }

  ghost predicate Remembers(e: Shadow, log: Log) {
    match LastAccess(log, e.addr)
    case Some(i) => e == Shadow(e.addr, log[i].before, log[i].tid, log[i].isWrite, true)
    case None => false
  }

  /** The table is a well-formed hash table whose entries are exactly the last recorded accesses. */
  ghost predicate TableInv(sh: seq<Shadow>, log: Log)
    requires |sh| == SHADOW_ENTRIES
  {
    && WellFormed(ShadowKeys(sh), ShadowHash)
    && (forall k :: 0 <= k < SHADOW_ENTRIES && sh[k].active ==> Remembers(sh[k], log))
    && (forall addr :: LastAccess(log, addr).Some? ==> addr in KeySet(ShadowKeys(sh)))
  }

  ghost predicate ShadowInv(s: State, log: Log) {
    Valid(s) && TableInv(s.shadow, log)
  }

  lemma {:induction false} LastAccessAppend(log: Log, r: Rec)
    ensures forall addr :: LastAccess(log + [r], addr) ==
              if r.RAccess? && r.addr == addr then Some(|log|) else LastAccess(log, addr)
  {
    assert (log + [r])[..|log|] == log;
  }

  lemma {:induction false} OtherStepsKeepShadow(s: State, log: Log, s': State, r: Rec)
    requires ShadowInv(s, log) && Valid(s') && s'.shadow == s.shadow && !r.RAccess?
    ensures ShadowInv(s', log + [r])
  {
    LastAccessAppend(log, r);
  }

  lemma {:induction false} AccessKeepsShadow(s: State, log: Log, t: Tid, addr: nat, isWrite: bool)
    requires ShadowInv(s, log) && 1 <= t <= s.threadCount
    requires AccessStep(s, t, addr, isWrite).Continue?
    ensures var r := AccessStep(s, t, addr, isWrite); ShadowInv(r.s, log + [r.rec])
  {
    var Continue(s', rec) := AccessStep(s, t, addr, isWrite);
    if rec.RAccess? {
      RecordingKeepsShadow(s.shadow, log, rec, FindShadow(s, addr).value, s'.shadow);
    } else {
      OtherStepsKeepShadow(s, log, s', rec);
    }
  }

  /** Writing an access into the slot its lookup allocates or finds. */
  lemma {:induction false} RecordingKeepsShadow(sh: seq<Shadow>, log: Log, rec: Rec, k: nat, sh': seq<Shadow>)
    requires |sh| == SHADOW_ENTRIES && TableInv(sh, log) && rec.RAccess?
    requires Probe(ShadowKeys(sh), ShadowHash(rec.addr), rec.addr, true) == Some(k) && k < SHADOW_ENTRIES
    requires sh' == sh[k := Shadow(rec.addr, rec.before, rec.tid, rec.isWrite, true)]
    ensures TableInv(sh', log + [rec])
  {
    var ks, ks' := ShadowKeys(sh), ShadowKeys(sh');
    InsertRefinesSet(ks, ShadowHash, rec.addr);
    assert ks' == Insert(ks, ShadowHash(rec.addr), rec.addr);
    LastAccessAppend(log, rec);
    forall j | 0 <= j < SHADOW_ENTRIES && sh'[j].active
      ensures Remembers(sh'[j], log + [rec])
    {
      if j != k {
        assert ks'[j] == Some(sh[j].addr) && ks'[k] == Some(rec.addr);
        assert Remembers(sh[j], log);
        assert (log + [rec])[LastAccess(log, sh[j].addr).value] == log[LastAccess(log, sh[j].addr).value];
      }
    }
  }

  lemma InitialShadow()
    ensures ShadowInv(Initial(), [])
  {
    var ks := ShadowKeys(Initial().shadow);
    assert forall i :: 0 <= i < SHADOW_ENTRIES ==> ks[i].None?;
  }

  lemma {:induction false} OpKeepsShadow(s: State, log: Log, t: Tid, op: Op)
    requires ShadowInv(s, log) && 1 <= t <= s.threadCount && OpStep(s, t, op).Continue?
    ensures ShadowInv(OpStep(s, t, op).s, log + [OpStep(s, t, op).rec])
  {
    match op
    case FuncEntry => OtherStepsKeepShadow(s, log, s, RNone);
    case Access(addr, isWrite) => AccessKeepsShadow(s, log, t, addr, isWrite);
    case PostLock(addr) => OtherStepsKeepShadow(s, log, LockStep(s, t, addr).s, LockStep(s, t, addr).rec);
    case PostUnlock(addr) => OtherStepsKeepShadow(s, log, UnlockStep(s, t, addr).s, UnlockStep(s, t, addr).rec);
  }

  lemma {:induction false} StepKeepsShadow(s: State, log: Log, e: Event)
    requires ShadowInv(s, log) && Step(s, e).Continue?
    ensures ShadowInv(Step(s, e).s, log + [Step(s, e).rec])
  {
    match e
    case Create(addr) => OtherStepsKeepShadow(s, log, CreateStep(s, addr).s, CreateStep(s, addr).rec);
    case Destroy(addr) => OtherStepsKeepShadow(s, log, DestroyStep(s, addr).s, RNone);
    case By(o, op) =>
      var s' := Registered(s, o).value;
      assert ShadowInv(s', log) by { assert s'.shadow == s.shadow; }
      OpKeepsShadow(s', log, s'.tidOf[o], op);
  }

  /** In every run the shadow table maps each recorded address to its last recorded access:
      one active slot per address, reachable from its hash index without a gap. */
  lemma {:induction false} ShadowIsLastAccessMap(es: seq<Event>)
    requires Run(es).Running?
    ensures ShadowInv(Run(es).s, Run(es).log)
    decreases |es|
  {
    if es == [] {
      InitialShadow();
    } else {
      ShadowIsLastAccessMap(es[..|es| - 1]);
      var Running(s, log) := Run(es[..|es| - 1]);
      StepKeepsShadow(s, log, es[|es| - 1]);
    }
  }

  /** The addresses of the recorded accesses. */
  function Recorded(log: Log): set<nat> {
    set i | 0 <= i < |log| && log[i].RAccess? :: log[i].addr
  }

  lemma {:induction false} KeysAreRecorded(sh: seq<Shadow>, log: Log)
    requires |sh| == SHADOW_ENTRIES && TableInv(sh, log)
    ensures KeySet(ShadowKeys(sh)) == Recorded(log)
  {
    var ks := ShadowKeys(sh);
    forall a | a in KeySet(ks) ensures a in Recorded(log) {
      var k :| 0 <= k < SHADOW_ENTRIES && ks[k] == Some(a);
      assert Remembers(sh[k], log);
    }
    forall a | a in Recorded(log) ensures a in KeySet(ks) {
      assert LastAccess(log, a).Some?;
    }
  }

  /** A lookup fails exactly for a new address when the recorded ones fill the table. */
  lemma {:induction false} LookupFailsIffFull(sh: seq<Shadow>, log: Log, addr: nat)
    requires |sh| == SHADOW_ENTRIES && TableInv(sh, log)
    ensures Probe(ShadowKeys(sh), ShadowHash(addr), addr, true).None? <==>
            addr !in Recorded(log) && |Recorded(log)| == SHADOW_ENTRIES
  {
    KeysAreRecorded(sh, log);
    InsertRefinesSet(ShadowKeys(sh), ShadowHash, addr);
  }

  lemma AccessUnrecordedIff(s: State, o: nat, addr: nat, isWrite: bool)
    requires Valid(s) && Registered(s, o).Some?
    ensures var r := Step(s, By(o, Access(addr, isWrite)));
            && (r.Continue? && r.rec.RNone? <==> FindShadow(s, addr).None?)
            && (r.Continue? && r.rec.RNone? ==> r.s == Registered(s, o).value)
  {
    assert Registered(s, o).value.shadow == s.shadow;
  }

  /** An access that does not end the run goes unrecorded exactly when its address is new and
      the accesses recorded so far are to 65536 addresses. */
  lemma {:induction false} UnrecordedIffFull(es: seq<Event>, o: nat, addr: nat, isWrite: bool)
    requires Run(es).Running? && Registered(Run(es).s, o).Some?
    ensures var Running(s, log) := Run(es);
            var r := Step(s, By(o, Access(addr, isWrite)));
            && (r.Continue? && r.rec.RNone? <==> addr !in Recorded(log) && |Recorded(log)| == SHADOW_ENTRIES)
            && (r.Continue? && r.rec.RNone? ==> r.s == Registered(s, o).value)
  {
    ShadowIsLastAccessMap(es);
    LookupFailsIffFull(Run(es).s.shadow, Run(es).log, addr);
    AccessUnrecordedIff(Run(es).s, o, addr, isWrite);
  }

  // ----- the verdict -----

  ghost predicate SeenRelease(log: Log, i: nat, x: nat, y: nat) {
    ReleaseBy(log, i, x) && HBPresent(log, i, y)
  }

  ghost predicate LatestSeenRelease(log: Log, i: nat, x: nat, y: nat) {
    SeenRelease(log, i, x, y) && forall j: nat :: j > i ==> !SeenRelease(log, j, x, y)
  }

  /** `y` has seen no release of `x`, or x's own clock has moved by at least two since the
      latest release of `x` that `y` has seen. */
  ghost predicate OutOfTouch(s: State, log: Log, x: Tid, y: Tid)
    requires Valid(s)
  {
    || (forall i: nat :: !SeenRelease(log, i, x, y))
    || (exists i: nat :: LatestSeenRelease(log, i, x, y) && Own(s, x) >= Stamp(log[i]) + 2)
  }

  /** The address was last recorded by another thread than `t`, and one of the accesses writes. */
  ghost predicate Conflicts(log: Log, t: Tid, addr: nat, isWrite: bool) {
    match LastAccess(log, addr)
    case None => false
    case Some(i) => log[i].tid != t && (isWrite || log[i].isWrite)
  }

  ghost predicate ReportsRace(s: State, log: Log, t: Tid, addr: nat, isWrite: bool)
    requires Valid(s)
  {
    && Conflicts(log, t, addr, isWrite)
    && var p := log[LastAccess(log, addr).value].tid;
       OutOfTouch(s, log, p, t) && OutOfTouch(s, log, t, p)
  }

  /** The epoch test fails exactly when the two threads are out of touch. */
  lemma {:induction false} EpochTestMeansOutOfTouch(s: State, log: Log, x: Tid, y: Tid)
    requires Inv(s, log) && x != y && 1 <= x <= s.threadCount
    ensures !EpochBefore(s.threads[x].vc, s.threads[y].vc, x) <==> OutOfTouch(s, log, x, y)
  {
    var c := s.threads[y].vc[x];
    SeenReleasesBound(s, log, x, y);
    assert Own(s, x) >= 1;
    if c != 0 {
      var r: nat :| SeenRelease(log, r, x, y) && Stamp(log[r]) + 1 == c;
      var i := LatestExists(log, r, x, y);
      assert Stamp(log[i]) + 1 == c by {
        if r < i { assert SameThread(log[r], log[i]); }
      }
      forall j: nat | LatestSeenRelease(log, j, x, y) ensures j == i {
        assert !(i > j) && !(j > i);
      }
    }
  }

  /** Exactness of a component, with paths of edges in place of the forward sets. */
  lemma {:induction false} SeenReleasesBound(s: State, log: Log, x: Tid, y: Tid)
    requires Inv(s, log) && x != y
    ensures var c := s.threads[y].vc[x];
            && (forall i: nat :: SeenRelease(log, i, x, y) ==> Stamp(log[i]) + 1 <= c)
            && (c == 0 || exists i: nat :: SeenRelease(log, i, x, y) && Stamp(log[i]) + 1 == c)
  {
    assert Exact(log, Seen(log, y), x, s.threads[y].vc[x]);
    ExactBySeenRelease(log, x, y, s.threads[y].vc[x]);
  }

  lemma {:induction false} ExactBySeenRelease(log: Log, x: Tid, y: Tid, c: nat)
    requires Exact(log, Seen(log, y), x, c)
    ensures forall i: nat :: SeenRelease(log, i, x, y) ==> Stamp(log[i]) + 1 <= c
    ensures c == 0 || exists i: nat :: SeenRelease(log, i, x, y) && Stamp(log[i]) + 1 == c
  {
    forall i: nat | SeenRelease(log, i, x, y) ensures Stamp(log[i]) + 1 <= c {
      SeenIsHB(log, i);
    }
    if c != 0 {
      var i :| i in Seen(log, y) && ReleaseBy(log, i, x) && Stamp(log[i]) + 1 == c;
      SeenIsHB(log, i);
      assert SeenRelease(log, i, x, y);
    }
  }

  lemma {:induction false} LatestExists(log: Log, r: nat, x: nat, y: nat) returns (i: nat)
    requires SeenRelease(log, r, x, y)
    ensures r <= i && LatestSeenRelease(log, i, x, y)
    decreases |log| - r
  {
    i := r;
    if j: nat :| j > r && SeenRelease(log, j, x, y) {
      i := LatestExists(log, j, x, y);
    }
  }

  /** The slot a lookup arrives at: the last recorded access, or a fresh slot that names thread 0. */
  lemma {:induction false} LookupFindsLastAccess(s: State, log: Log, addr: nat)
    requires ShadowInv(s, log)
    ensures var f := FindShadow(s, addr);
            match LastAccess(log, addr)
            case Some(i) =>
              f.Some? && s.shadow[f.value] == Shadow(addr, log[i].before, log[i].tid, log[i].isWrite, true)
            case None => f.Some? ==> s.shadow[f.value].tid == 0 && !s.shadow[f.value].isWrite
  {
    var ks := ShadowKeys(s.shadow);
    InsertRefinesSet(ks, ShadowHash, addr);
    var f := FindShadow(s, addr);
    if f.Some? && s.shadow[f.value].active {
      assert Remembers(s.shadow[f.value], log);
    }
  }

  /** The first recorded access to an address never reports: its fresh slot names thread 0. */
  lemma {:induction false} FirstAccessIsSilent(es: seq<Event>, o: nat, addr: nat, isWrite: bool)
    requires Run(es).Running? && Registered(Run(es).s, o).Some?
    requires addr !in Recorded(Run(es).log)
    ensures Step(Run(es).s, By(o, Access(addr, isWrite))).Continue?
  {
    ShadowIsLastAccessMap(es);
    SlotZeroIsSilent(es);
    NewAddressIsSilent(Run(es).s, Run(es).log, o, addr, isWrite);
  }

  lemma {:induction false} NewAddressIsSilent(s0: State, log: Log, o: nat, addr: nat, isWrite: bool)
    requires ShadowInv(s0, log) && s0.threads[0].vc[0] == 0 && Registered(s0, o).Some?
    requires addr !in Recorded(log)
    ensures Step(s0, By(o, Access(addr, isWrite))).Continue?
  {
    var s := Registered(s0, o).value;
    LookupFindsLastAccess(s0, log, addr);
    assert s.shadow == s0.shadow && s.threads[0] == s0.threads[0];
    SlotZeroNeverRaces(s, s.tidOf[o], addr, isWrite);
  }

  /** A slot that names thread 0 raises no report. */
  lemma SlotZeroNeverRaces(s: State, t: Tid, addr: nat, isWrite: bool)
    requires Valid(s) && 1 <= t <= s.threadCount && s.threads[0].vc[0] == 0
    requires FindShadow(s, addr).Some? ==> s.shadow[FindShadow(s, addr).value].tid == 0
    ensures AccessStep(s, t, addr, isWrite).Continue?
  {
  }

  // ----- the verdict over events -----

  /** Event `i` is the last recorded access to the address. */
  ghost predicate LastRecordedAccess(es: seq<Event>, log: Log, addr: nat, i: nat)
    requires |log| == |es|
  {
    && i < |es| && IsAccess(es[i], addr) && log[i] != RNone
    && forall j :: i < j < |es| && IsAccess(es[j], addr) ==> log[j] == RNone
  }

  lemma {:induction false} EntryOfAddress(es: seq<Event>, i: nat, addr: nat)
    requires Run(es).Running? && i < |es|
    ensures var rec := Run(es).log[i];
            && (rec.RAccess? && rec.addr == addr <==> IsAccess(es[i], addr) && rec != RNone)
            && (rec.RAccess? && rec.addr == addr ==>
                  && rec.isWrite == es[i].op.isWrite
                  && es[i].os in Run(es).s.tidOf && rec.tid == Run(es).s.tidOf[es[i].os])
  {
    if es[i].By? && es[i].op.Access? {
      AccessEntry(es, i);
      ActorTid(es, i);
    } else {
      OtherEntry(es, i);
    }
  }

  /** The log's last entry for an address is the last recorded access event. */
  lemma {:induction false} LastAccessIsEvent(es: seq<Event>, addr: nat)
    requires Run(es).Running?
    ensures forall i: nat :: LastRecordedAccess(es, Run(es).log, addr, i) <==> LastAccess(Run(es).log, addr) == Some(i)
  {
    var log := Run(es).log;
    forall i: nat | i < |es|
      ensures log[i].RAccess? && log[i].addr == addr <==> IsAccess(es[i], addr) && log[i] != RNone
    {
      EntryOfAddress(es, i, addr);
    }
    LastOfMatching(es, log, addr);
  }

  lemma {:induction false} LastOfMatching(es: seq<Event>, log: Log, addr: nat)
    requires |log| == |es|
    requires forall i: nat :: i < |es| ==>
               (log[i].RAccess? && log[i].addr == addr <==> IsAccess(es[i], addr) && log[i] != RNone)
    ensures forall i: nat :: LastRecordedAccess(es, log, addr, i) <==> LastAccess(log, addr) == Some(i)
  {
    forall i: nat ensures LastRecordedAccess(es, log, addr, i) <==> LastAccess(log, addr) == Some(i) {
      if LastRecordedAccess(es, log, addr, i) {
        var l := LastAccess(log, addr);
        assert l.Some?;
        assert !(i < l.value) && !(l.value < i);
      }
    }
  }

  /** The last recorded access to the address is by another thread, and one of the two writes. */
  ghost predicate Clash(es: seq<Event>, log: Log, o: nat, addr: nat, isWrite: bool, i: nat)
    requires |log| == |es|
  {
    LastRecordedAccess(es, log, addr, i) && es[i].os != o && (isWrite || es[i].op.isWrite)
  }

  ghost predicate BothOutOfTouch(s: State, log: Log, o: nat, p: nat)
    requires Valid(s)
  {
    && o in s.tidOf && p in s.tidOf
    && OutOfTouch(s, log, s.tidOf[o], s.tidOf[p]) && OutOfTouch(s, log, s.tidOf[p], s.tidOf[o])
  }

  lemma {:induction false} ClashIsConflict(es: seq<Event>, o: nat, addr: nat, isWrite: bool)
    requires Run(es).Running? && Registered(Run(es).s, o).Some?
    ensures var s := Registered(Run(es).s, o).value;
            && (Conflicts(Run(es).log, s.tidOf[o], addr, isWrite) <==>
                exists i: nat :: Clash(es, Run(es).log, o, addr, isWrite, i))
            && (forall i: nat :: LastRecordedAccess(es, Run(es).log, addr, i) ==>
                  && LastAccess(Run(es).log, addr) == Some(i) && es[i].os in s.tidOf
                  && Run(es).log[i].tid == s.tidOf[es[i].os] && Run(es).log[i].isWrite == es[i].op.isWrite)
  {
    var log, s := Run(es).log, Registered(Run(es).s, o).value;
    LastAccessIsEvent(es, addr);
    if LastAccess(log, addr).Some? {
      var i := LastAccess(log, addr).value;
      EntryOfAddress(es, i, addr);
      assert LastRecordedAccess(es, log, addr, i);
      assert Conflicts(log, s.tidOf[o], addr, isWrite) <==> Clash(es, log, o, addr, isWrite, i);
    }
  }

  /** The race verdict over runs: an access is reported if and only if the last recorded access
      event to its address is by another thread, one of the two writes, and each thread is out of
      touch with the other. The report names exactly those two accesses. */
  lemma {:induction false} RaceVerdict(es: seq<Event>, o: nat, addr: nat, isWrite: bool)
    requires Run(es).Running? && Registered(Run(es).s, o).Some?
    ensures var Running(s0, log) := Run(es);
            var s, r := Registered(s0, o).value, Step(s0, By(o, Access(addr, isWrite)));
            && (r.Race? <==>
                exists i: nat :: Clash(es, log, o, addr, isWrite, i) && BothOutOfTouch(s, log, o, es[i].os))
            && (r.Race? ==>
                  exists i: nat :: LastRecordedAccess(es, log, addr, i) && es[i].os in s.tidOf
                    && r.report == Report(addr, s.tidOf[o], isWrite, s.tidOf[es[i].os], es[i].op.isWrite))
  {
    LogVerdict(es, o, addr, isWrite);
    ClashIsConflict(es, o, addr, isWrite);
    LastAccessIsEvent(es, addr);
    var Running(s0, log) := Run(es);
    if LastAccess(log, addr).Some? {
      assert LastRecordedAccess(es, log, addr, LastAccess(log, addr).value);
    }
  }

  /** The same verdict over the log. */
  lemma {:induction false} LogVerdict(es: seq<Event>, o: nat, addr: nat, isWrite: bool)
    requires Run(es).Running? && Registered(Run(es).s, o).Some?
    ensures var Running(s0, log) := Run(es);
            var s := Registered(s0, o).value;
            var t, r := s.tidOf[o], Step(s0, By(o, Access(addr, isWrite)));
            && (r.Race? <==> ReportsRace(s, log, t, addr, isWrite))
            && (r.Race? ==>
                  var i := LastAccess(log, addr).value;
                  r.report == Report(addr, t, isWrite, log[i].tid, log[i].isWrite))
  {
    var Running(s0, log) := Run(es);
    var s := Registered(s0, o).value;
    var t := s.tidOf[o];
    if LastAccess(log, addr).None? {
      FirstAccessIsSilent(es, o, addr, isWrite);
    } else {
      ShadowIsLastAccessMap(es);
      RunKeeps(es);
      RegisterKeeps(s0, log, o);
      assert s.shadow == s0.shadow;
      KnownAddressVerdict(s, log, t, addr, isWrite);
    }
  }

  lemma {:induction false} KnownAddressVerdict(s: State, log: Log, t: Tid, addr: nat, isWrite: bool)
    requires Inv(s, log) && ShadowInv(s, log) && 1 <= t <= s.threadCount && LastAccess(log, addr).Some?
    ensures var r, i := AccessStep(s, t, addr, isWrite), LastAccess(log, addr).value;
            && (r.Race? <==> ReportsRace(s, log, t, addr, isWrite))
            && (r.Race? ==> r.report == Report(addr, t, isWrite, log[i].tid, log[i].isWrite))
  {
    LookupFindsLastAccess(s, log, addr);
    var p := log[LastAccess(log, addr).value].tid;
    assert ByThread(log[LastAccess(log, addr).value], p);
    if p != t {
      EpochTestMeansOutOfTouch(s, log, p, t);
      EpochTestMeansOutOfTouch(s, log, t, p);
    }
  }
}
