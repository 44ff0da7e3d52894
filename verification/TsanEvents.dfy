/** What the log of a run says about its events: which entry an access leaves behind, and whose. */
module TsanEvents {
  import opened TsanState

  /** The state in which event `n` takes effect: its thread has an id. */
  function Actor(es: seq<Event>, n: nat): State
    requires Run(es).Running? && n < |es| && es[n].By? && Valid(History(es)[n])
    requires Registered(History(es)[n], es[n].os).Some?
  {
    Registered(History(es)[n], es[n].os).value
  }

  lemma {:induction false} ActorRegistered(es: seq<Event>, n: nat)
    requires Run(es).Running? && n < |es| && es[n].By?
    ensures Valid(History(es)[n]) && Registered(History(es)[n], es[n].os).Some?
    ensures var s := Actor(es, n);
            OpStep(s, s.tidOf[es[n].os], es[n].op) == Continue(History(es)[n + 1], Run(es).log[n])
  {
    HistoryStep(es, n);
  }

  predicate IsAccess(e: Event, addr: nat) {
    e.By? && e.op.Access? && e.op.addr == addr
  }

  /** The entry of an access is its event: the address, the kind, the thread's id and its clock at
      the time; then the thread's own component ticks and nothing else changes. An access that the
      full table has no room for leaves no entry and changes nothing. */
  lemma {:induction false} AccessEntry(es: seq<Event>, n: nat)
    requires Run(es).Running? && n < |es| && es[n].By? && es[n].op.Access?
    ensures Valid(History(es)[n]) && Registered(History(es)[n], es[n].os).Some?
    ensures var s, s', rec := Actor(es, n), History(es)[n + 1], Run(es).log[n];
            var t := s.tidOf[es[n].os];
            && (rec == RNone || rec == RAccess(t, es[n].op.addr, es[n].op.isWrite, s.threads[t].vc))
            && (rec == RNone ==> s' == s)
            && (rec != RNone ==>
                  && s'.tidOf == s.tidOf && s'.threadCount == s.threadCount && s'.mutexes == s.mutexes
                  && |s'.threads| == MAX_THREADS && s'.threads[t].vc[t] == s.threads[t].vc[t] + 1
                  && (forall u: Tid :: u != t ==> s'.threads[t].vc[u] == s.threads[t].vc[u])
                  && (forall u: Tid :: u != t ==> s'.threads[u] == s.threads[u]))
  {
    ActorRegistered(es, n);
  }

  /** Entries of other kinds come from the events of those kinds, and are their thread's. */
  lemma {:induction false} OtherEntry(es: seq<Event>, n: nat)
    requires Run(es).Running? && n < |es| && !(es[n].By? && es[n].op.Access?)
    ensures var rec := Run(es).log[n];
            && !rec.RAccess?
            && (rec.RAcquire? ==> es[n].By? && es[n].op.PostLock?)
            && (rec.RRelease? ==> es[n].By? && es[n].op.PostUnlock?)
            && (rec.RCreate? ==> es[n].Create?)
  {
    HistoryStep(es, n);
  }

  /** Entering a function does no more than register its thread. */
  lemma {:induction false} FunctionEntry(es: seq<Event>, n: nat)
    requires Run(es).Running? && n < |es| && es[n].By? && es[n].op.FuncEntry?
    ensures Valid(History(es)[n]) && Registered(History(es)[n], es[n].os).Some?
    ensures History(es)[n + 1] == Actor(es, n)
  {
    ActorRegistered(es, n);
  }

  /** A thread's id, once given, stays. */
  lemma {:induction false} TidStays(es: seq<Event>, m: nat, n: nat, o: nat)
    requires Run(es).Running? && m <= n <= |es| && o in History(es)[m].tidOf
    ensures o in History(es)[n].tidOf && History(es)[n].tidOf[o] == History(es)[m].tidOf[o]
    decreases n
  {
    if m < n {
      TidStays(es, m, n - 1, o);
      HistoryStep(es, n - 1);
      StepKeepsTids(History(es)[n - 1], es[n - 1], o);
    }
  }

  lemma StepKeepsTids(s: State, e: Event, o: nat)
    requires Valid(s) && Step(s, e).Continue? && o in s.tidOf
    ensures o in Step(s, e).s.tidOf && Step(s, e).s.tidOf[o] == s.tidOf[o]
  {
    match e
    case Create(addr) => assert CreateStep(s, addr).s.tidOf == s.tidOf;
    case Destroy(addr) => assert DestroyStep(s, addr).s.tidOf == s.tidOf;
    case By(_, op) => OpKeepsTids(Registered(s, e.os).value, Registered(s, e.os).value.tidOf[e.os], op);
  }

  lemma OpKeepsTids(s: State, t: Tid, op: Op)
    requires Valid(s) && 1 <= t <= s.threadCount && OpStep(s, t, op).Continue?
    ensures OpStep(s, t, op).s.tidOf == s.tidOf
  {
  }

  /** The thread id an acting thread has at the end of the run. */
  lemma {:induction false} ActorTid(es: seq<Event>, n: nat)
    requires Run(es).Running? && n < |es| && es[n].By?
    ensures Valid(History(es)[n]) && Registered(History(es)[n], es[n].os).Some?
    ensures es[n].os in Run(es).s.tidOf && Run(es).s.tidOf[es[n].os] == Actor(es, n).tidOf[es[n].os]
  {
    ActorRegistered(es, n);
    var s := Actor(es, n);
    OpKeepsTids(s, s.tidOf[es[n].os], es[n].op);
    TidStays(es, n + 1, |es|, es[n].os);
    HistoryAt(es, |es|);
    assert es[..|es|] == es;
  }

  /** Thread ids are given out in the order in which the threads first act. */
  function FirstActors(es: seq<Event>): seq<nat> {
    if es == [] then []
    else
      var front, e := FirstActors(es[..|es| - 1]), es[|es| - 1];
      if e.By? && e.os !in front then front + [e.os] else front
  }

  lemma {:induction false} TidsFollowOrder(es: seq<Event>)
    requires Run(es).Running?
    ensures var s, order := Run(es).s, FirstActors(es);
            && s.threadCount == |order|
            && (forall o :: o in s.tidOf <==> o in order)
            && (forall i :: 0 <= i < |order| ==> s.tidOf[order[i]] == i + 1)
    decreases |es|
  {
    if es != [] {
      var n := |es| - 1;
      TidsFollowOrder(es[..n]);
      LastStep(es);
      OrderStep(Run(es[..n]).s, es[n], Run(es).s, FirstActors(es[..n]));
    }
  }

  lemma OrderStep(s: State, e: Event, s': State, order: seq<nat>)
    requires Valid(s) && Step(s, e).Continue? && Step(s, e).s == s'
    requires s.threadCount == |order| && (forall o :: o in s.tidOf <==> o in order)
    requires forall i :: 0 <= i < |order| ==> s.tidOf[order[i]] == i + 1
    ensures var order' := if e.By? && e.os !in order then order + [e.os] else order;
            && s'.threadCount == |order'|
            && (forall o :: o in s'.tidOf <==> o in order')
            && (forall i :: 0 <= i < |order'| ==> s'.tidOf[order'[i]] == i + 1)
  {
    match e
    case Create(addr) => assert s'.tidOf == s.tidOf && s'.threadCount == s.threadCount;
    case Destroy(addr) => assert s'.tidOf == s.tidOf && s'.threadCount == s.threadCount;
    case By(o, op) =>
      var s1 := Registered(s, o).value;
      OpKeepsTids(s1, s1.tidOf[o], op);
      OpKeepsCount(s1, s1.tidOf[o], op);
  }

  /** An operation registers nobody. */
  lemma OpKeepsCount(s: State, t: Tid, op: Op)
    requires Valid(s) && 1 <= t <= s.threadCount && OpStep(s, t, op).Continue?
    ensures OpStep(s, t, op).s.threadCount == s.threadCount
  {
  }
}
