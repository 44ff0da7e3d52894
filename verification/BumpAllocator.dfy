/** The lock-free bump allocator: any number of threads run its load / compare-and-swap retry
    loop, interleaved at the atomic operations, with resets in between. */
module BumpAllocator {
  import opened Common

  /** sizeof(drt_bump_pool) */
  const POOL: nat := 256 * 1024

  /** Where a thread is in drt_internal_alloc, with its local variables. */
  datatype Pc =
    | Idle
    | AtLoad(size: nat)
    | AtCas(size: nat, seen: nat, newv: nat)

  datatype Block = Block(owner: nat, start: nat, size: nat)

  /** `pcs` has an entry for each thread that has ever called the allocator; `blocks` lists what
      was returned since the last reset, oldest first. */
  datatype State = State(used: nat, pcs: map<nat, Pc>, blocks: seq<Block>, died: bool)

  datatype Action = Call(t: nat, size: nat) | Load(t: nat) | Cas(t: nat) | Reset(t: nat)

  const INITIAL := State(0, map[], [], false)

  function PcIn(pcs: map<nat, Pc>, t: nat): Pc {
    if t in pcs then pcs[t] else Idle
  }

  function PcOf(s: State, t: nat): Pc {
    PcIn(s.pcs, t)
  }

  /** Rounding up to a multiple of the pointer size. */
  function AlignUp(n: nat): (r: nat)
    ensures n <= r < n + WORD_SIZE && r % WORD_SIZE == 0
  {
    (n + WORD_SIZE - 1) / WORD_SIZE * WORD_SIZE
  }

  /** The new counter value, in 64-bit arithmetic. */
  function NewUsed(seen: nat, size: nat): nat {
    (AlignUp(seen) + size) % ADDRESS_SPACE
  }

  /** A thread at `pc` may take the step. */
  predicate AtTurn(pc: Pc, a: Action) {
    match a
    case Call(_, size) => pc.Idle? && size < ADDRESS_SPACE
    case Load(_) => pc.AtLoad?
    case Cas(_) => pc.AtCas?
    case Reset(_) => pc.Idle?
  }

  predicate Enabled(s: State, a: Action) {
    !s.died && AtTurn(PcOf(s, a.t), a)
  }

  function Next(s: State, a: Action): State
    requires Enabled(s, a)
  {
    match a
    case Call(t, size) => s.(pcs := s.pcs[t := AtLoad(size)])
    case Load(t) =>
      var size := PcOf(s, t).size;
      var newv := NewUsed(s.used, size);
      if newv > POOL then s.(died := true) else s.(pcs := s.pcs[t := AtCas(size, s.used, newv)])
    case Cas(t) =>
      var AtCas(size, seen, newv) := PcOf(s, t);
      if s.used == seen
      then State(newv, s.pcs[t := Idle], s.blocks + [Block(t, (newv - size) % ADDRESS_SPACE, size)], false)
      else s.(pcs := s.pcs[t := AtLoad(size)])
    case Reset(t) => s.(used := 0, blocks := [])
  }

  // ----- runs -----

  predicate Possible(run: seq<Action>)
    decreases |run|, 0
  {
    run == [] || (Possible(run[..|run| - 1]) && Enabled(After(run[..|run| - 1]), run[|run| - 1]))
  }

  function After(run: seq<Action>): State
    requires Possible(run)
    decreases |run|, 1
  {
    if run == [] then INITIAL else Next(After(run[..|run| - 1]), run[|run| - 1])
  }

  // ----- safety -----

  /** Requests for which the new counter value cannot wrap, whatever the counter. */
  predicate Small(size: nat) {
    size < ADDRESS_SPACE - POOL
  }

  predicate RequestsSmall(a: Action) {
    a.Call? ==> Small(a.size)
  }

  predicate AllSmall(run: seq<Action>) {
    forall i :: 0 <= i < |run| ==> RequestsSmall(run[i])
  }

  ghost predicate InOrder(blocks: seq<Block>, limit: nat) {
    && (forall i :: 0 <= i < |blocks| ==> blocks[i].start % WORD_SIZE == 0 && blocks[i].start + blocks[i].size <= limit)
    && (forall i, j :: 0 <= i < j < |blocks| ==> blocks[i].start + blocks[i].size <= blocks[j].start)
  }

  ghost predicate Inv(s: State) {
    && s.used <= POOL
    && InOrder(s.blocks, s.used)
    && (forall t :: t in s.pcs ==>
          match s.pcs[t]
          case Idle => true
          case AtLoad(size) => Small(size)
          case AtCas(size, seen, newv) => Small(size) && seen <= POOL && newv == AlignUp(seen) + size <= POOL)
  }

  lemma NextKeepsInv(s: State, a: Action)
    requires Inv(s) && Enabled(s, a) && RequestsSmall(a)
    ensures Inv(Next(s, a))
  {
    match a
    case Call(t, size) =>
    case Load(t) => assert s.pcs[t] == PcOf(s, t);
    case Cas(t) => CasKeepsInv(s, t);
    case Reset(t) =>
  }

  lemma CasKeepsInv(s: State, t: nat)
    requires Inv(s) && Enabled(s, Cas(t))
    ensures Inv(Next(s, Cas(t)))
  {
    var AtCas(size, seen, newv) := s.pcs[t];
    if s.used == seen {
      assert (newv - size) % ADDRESS_SPACE == AlignUp(seen);
    }
  }

  lemma {:induction false} RunKeepsInv(run: seq<Action>)
    requires Possible(run) && AllSmall(run)
    ensures Inv(After(run))
    decreases |run|
  {
    if run != [] {
      RunKeepsInv(run[..|run| - 1]);
      NextKeepsInv(After(run[..|run| - 1]), run[|run| - 1]);
    }
  }

  /** In every interleaving of requests that do not wrap, the blocks returned since the last reset
      lie inside the pool, start at multiples of the pointer size and do not overlap; each starts at
      or after the end of every earlier one. A value loaded before a reset makes no exception. */
  lemma {:induction false} BlocksAreSafe(run: seq<Action>)
    requires Possible(run) && AllSmall(run)
    ensures forall i :: 0 <= i < |After(run).blocks| ==>
              var b := After(run).blocks[i]; b.start % WORD_SIZE == 0 && b.start + b.size <= POOL
    ensures forall i, j :: 0 <= i < j < |After(run).blocks| ==>
              After(run).blocks[i].start + After(run).blocks[i].size <= After(run).blocks[j].start
  {
    RunKeepsInv(run);
  }

  function EndOf(blocks: seq<Block>): nat {
    if blocks == [] then 0 else blocks[|blocks| - 1].start + blocks[|blocks| - 1].size
  }

  /** The first block starts the pool, every other one where its predecessor ends, rounded up. */
  ghost predicate Packed(blocks: seq<Block>) {
    && (blocks != [] ==> blocks[0].start == 0)
    && (forall i :: 0 < i < |blocks| ==> blocks[i].start == AlignUp(blocks[i - 1].start + blocks[i - 1].size))
  }

  ghost predicate Tight(s: State) {
    s.used == EndOf(s.blocks) && Packed(s.blocks)
  }

  lemma PackedAppend(blocks: seq<Block>, b: Block)
    requires Packed(blocks) && b.start == AlignUp(EndOf(blocks))
    ensures Packed(blocks + [b]) && EndOf(blocks + [b]) == b.start + b.size
  {
    assert AlignUp(0) == 0;
  }

  lemma NextKeepsTight(s: State, a: Action)
    requires Inv(s) && Tight(s) && Enabled(s, a)
    ensures Tight(Next(s, a))
  {
    if a.Cas? && s.used == s.pcs[a.t].seen {
      var AtCas(size, seen, newv) := s.pcs[a.t];
      assert (newv - size) % ADDRESS_SPACE == AlignUp(seen);
      PackedAppend(s.blocks, Block(a.t, AlignUp(seen), size));
    }
  }

  lemma {:induction false} RunIsTight(run: seq<Action>)
    requires Possible(run) && AllSmall(run)
    ensures Tight(After(run))
    decreases |run|
  {
    if run != [] {
      var front := run[..|run| - 1];
      RunIsTight(front);
      RunKeepsInv(front);
      NextKeepsTight(After(front), run[|run| - 1]);
    }
  }

  /** And they are packed: the counter is the end of the last block since the last reset, or 0, the
      first block after a reset starts the pool again, and no room is lost but by rounding up. */
  lemma {:induction false} BlocksArePacked(run: seq<Action>)
    requires Possible(run) && AllSmall(run)
    ensures var s := After(run);
            && s.used == (if s.blocks == [] then 0 else s.blocks[|s.blocks| - 1].start + s.blocks[|s.blocks| - 1].size)
            && (s.blocks != [] ==> s.blocks[0].start == 0)
            && forall i :: 0 < i < |s.blocks| ==>
                 s.blocks[i].start == AlignUp(s.blocks[i - 1].start + s.blocks[i - 1].size)
  {
    RunIsTight(run);
  }

  /** A reset forgets all blocks and starts the pool again. */
  lemma {:induction false} ResetStartsOver(run: seq<Action>, t: nat)
    requires Possible(run) && AllSmall(run) && Enabled(After(run), Reset(t))
    ensures Possible(run + [Reset(t)]) && After(run + [Reset(t)]).blocks == [] && After(run + [Reset(t)]).used == 0
  {
    Extend(run, Reset(t));
    RunIsTight(run + [Reset(t)]);
  }

  /** A compare-and-swap that succeeds, however old the value it compares, hands its thread a
      block of the size it asked for, past every block handed out since the last reset. */
  lemma {:induction false} SuccessfulCasIsCorrect(run: seq<Action>, t: nat)
    requires Possible(run) && AllSmall(run) && PcOf(After(run), t).AtCas? && !After(run).died
    requires After(run).used == PcOf(After(run), t).seen
    ensures var s := After(run);
            var s' := Next(s, Cas(t));
            && |s'.blocks| == |s.blocks| + 1 && s'.blocks[..|s.blocks|] == s.blocks
            && var b := s'.blocks[|s.blocks|];
               && b.owner == t && b.size == PcOf(s, t).size && b.start % WORD_SIZE == 0
               && b.start + b.size == s'.used <= POOL
               && forall i :: 0 <= i < |s.blocks| ==> s.blocks[i].start + s.blocks[i].size <= b.start
  {
    RunKeepsInv(run);
  }

  // ----- the bound on requests is exact -----

  ghost predicate InPool(blocks: seq<Block>) {
    forall i :: 0 <= i < |blocks| ==> blocks[i].start + blocks[i].size <= POOL
  }

  predicate RequestsUpTo(run: seq<Action>, bound: nat) {
    forall i :: 0 <= i < |run| && run[i].Call? ==> run[i].size <= bound
  }

  lemma {:induction false} Extend(run: seq<Action>, a: Action)
    requires Possible(run) && Enabled(After(run), a)
    ensures Possible(run + [a]) && After(run + [a]) == Next(After(run), a)
  {
    assert (run + [a])[..|run|] == run;
  }

  /** One thread alone is served at once, with whatever block the 64-bit arithmetic makes. */
  lemma {:induction false} ServedAlone(run: seq<Action>, t: nat, size: nat)
    requires Possible(run) && !After(run).died && PcOf(After(run), t).Idle? && size < ADDRESS_SPACE
    requires NewUsed(After(run).used, size) <= POOL
    ensures var run', s := run + [Call(t, size)] + [Load(t)] + [Cas(t)], After(run);
            var newv := NewUsed(s.used, size);
            var pcs := s.pcs[t := AtLoad(size)][t := AtCas(size, s.used, newv)][t := Idle];
            && Possible(run')
            && After(run') == State(newv, pcs, s.blocks + [Block(t, (newv - size) % ADDRESS_SPACE, size)], false)
  {
    Extend(run, Call(t, size));
    Extend(run + [Call(t, size)], Load(t));
    Extend(run + [Call(t, size)] + [Load(t)], Cas(t));
  }

  /** A bound on the requests keeps all blocks of all runs inside the pool if and only if it is
      below 2^64 less the size of the pool. */
  lemma {:induction false} RequestBoundIsExact(bound: nat)
    requires bound < ADDRESS_SPACE
    ensures (forall run :: Possible(run) && RequestsUpTo(run, bound) ==> InPool(After(run).blocks)) <==>
            bound < ADDRESS_SPACE - POOL
  {
    if Small(bound) {
      forall run | Possible(run) && RequestsUpTo(run, bound) ensures InPool(After(run).blocks) {
        assert AllSmall(run);
        BlocksAreSafe(run);
      }
    } else {
      LargeRequestEscapes(bound);
    }
  }

  function Filled(): seq<Action> {
    [] + [Call(0, POOL)] + [Load(0)] + [Cas(0)]
  }

  lemma {:induction false} FilledPool()
    ensures Possible(Filled()) && RequestsUpTo(Filled(), POOL)
    ensures var s := After(Filled()); s.used == POOL && |s.blocks| == 1 && !s.died && PcOf(s, 0).Idle?
  {
    ServedAlone([], 0, POOL);
  }

  lemma WrappedRequest(size: nat)
    requires ADDRESS_SPACE - POOL <= size < ADDRESS_SPACE
    ensures NewUsed(POOL, size) <= POOL && (NewUsed(POOL, size) - size) % ADDRESS_SPACE == POOL
  {
    assert AlignUp(POOL) == POOL;
    assert NewUsed(POOL, size) == POOL + size - ADDRESS_SPACE;
  }

  lemma {:induction false} RequestsUpToAppend(run: seq<Action>, size: nat)
    requires RequestsUpTo(run, POOL) && POOL <= size
    ensures RequestsUpTo(run + [Call(0, size)] + [Load(0)] + [Cas(0)], size)
  {
  }

  /** On a full pool a request that wraps the counter gets a block that starts where the pool ends. */
  lemma {:induction false} Escapes(run: seq<Action>, size: nat)
    requires Possible(run) && ADDRESS_SPACE - POOL <= size < ADDRESS_SPACE
    requires After(run).used == POOL && !After(run).died && PcOf(After(run), 0).Idle?
    ensures var run' := run + [Call(0, size)] + [Load(0)] + [Cas(0)]; Possible(run') && !InPool(After(run').blocks)
  {
    WrappedRequest(size);
    ServedAlone(run, 0, size);
    var blocks := After(run + [Call(0, size)] + [Load(0)] + [Cas(0)]).blocks;
    assert blocks[|After(run).blocks|] == Block(0, POOL, size);
  }

  /** Fill the pool, then ask for enough to wrap the counter. */
  lemma {:induction false} LargeRequestEscapes(size: nat)
    requires ADDRESS_SPACE - POOL <= size < ADDRESS_SPACE
    ensures exists run :: Possible(run) && RequestsUpTo(run, size) && !InPool(After(run).blocks)
  {
    FilledPool();
    RequestsUpToAppend(Filled(), size);
    Escapes(Filled(), size);
  }

  // ----- why a compare-and-swap fails -----

  /** Step `k` of the run, by a thread other than `t`, changed the counter. */
  ghost predicate ChangedByOther(run: seq<Action>, k: nat, t: nat)
    requires Possible(run)
  {
    k < |run| && run[k].t != t && Possible(run[..k]) && Possible(run[..k + 1])
    && After(run[..k]).used != After(run[..k + 1]).used
  }

  /** `t` loaded the value it is about to compare at step `i` and has not moved since. */
  ghost predicate LoadedAt(run: seq<Action>, i: nat, t: nat)
    requires Possible(run)
  {
    && PcOf(After(run), t).AtCas?
    && i < |run| && run[i] == Load(t) && Possible(run[..i]) && After(run[..i]).used == PcOf(After(run), t).seen
    && forall k :: i < k < |run| ==> run[k].t != t
  }

  lemma {:induction false} PossiblePrefix(run: seq<Action>, n: nat)
    requires Possible(run) && n <= |run|
    ensures Possible(run[..n])
    decreases |run|
  {
    if n == |run| {
      assert run[..n] == run;
    } else {
      PossiblePrefix(run[..|run| - 1], n);
      assert run[..|run| - 1][..n] == run[..n];
    }
  }

  lemma {:induction false} LoadExists(run: seq<Action>, t: nat) returns (i: nat)
    requires Possible(run) && PcOf(After(run), t).AtCas?
    ensures LoadedAt(run, i, t)
    decreases |run|
  {
    var n := |run| - 1;
    var prev, a := run[..n], run[n];
    if a.t == t {
      assert a == Load(t);
      i := n;
    } else {
      i := LoadExists(prev, t);
      assert prev[..i] == run[..i];
    }
  }

  /** If the counter differs from what it was at step `i`, some step since changed it. */
  lemma {:induction false} SomeStepChanged(run: seq<Action>, i: nat, t: nat) returns (k: nat)
    requires Possible(run) && i < |run| && Possible(run[..i]) && run[i] == Load(t)
    requires forall k :: i < k < |run| ==> run[k].t != t
    requires After(run).used != After(run[..i]).used
    ensures i < k && ChangedByOther(run, k, t)
    decreases |run|
  {
    var n := |run| - 1;
    var prev := run[..n];
    assert prev[..i] == run[..i];
    if After(prev).used != After(run).used {
      assert run[..n + 1] == run;
      k := n;
    } else {
      k := SomeStepChanged(prev, i, t);
      assert prev[..k] == run[..k] && prev[..k + 1] == run[..k + 1];
    }
  }

  /** A compare-and-swap fails only if, since its own load, a step of another thread changed the
      counter: some other caller got its block, or a reset took effect. Its thread then goes back to
      the load with the same request, and nothing else changes. */
  lemma {:induction false} FailedCasMeansProgress(run: seq<Action>, t: nat)
    requires Possible(run) && PcOf(After(run), t).AtCas?
    requires After(run).used != PcOf(After(run), t).seen
    ensures exists i: nat, k: nat ::
              i < k && LoadedAt(run, i, t) && ChangedByOther(run, k, t) && (run[k].Cas? || run[k].Reset?)
    ensures var s := After(run);
            !s.died ==> Enabled(s, Cas(t)) && Next(s, Cas(t)) == s.(pcs := s.pcs[t := AtLoad(PcOf(s, t).size)])
  {
    var i := LoadExists(run, t);
    var k := SomeStepChanged(run, i, t);
    ChangeIsCasOrReset(run, k);
  }

  lemma {:induction false} ChangeIsCasOrReset(run: seq<Action>, k: nat)
    requires k < |run| && Possible(run[..k]) && Possible(run[..k + 1])
    requires After(run[..k]).used != After(run[..k + 1]).used
    ensures run[k].Cas? || run[k].Reset?
  {
    assert run[..k + 1][..k] == run[..k];
  }

  // ----- runs from any state -----

  /** The state a run leads to, if all its steps are enabled. */
  function Steps(s: State, run: seq<Action>): Option<State> {
    if run == [] then Some(s)
    else
      match Steps(s, run[..|run| - 1])
      case None => None
      case Some(m) => if Enabled(m, run[|run| - 1]) then Some(Next(m, run[|run| - 1])) else None
  }

  /** Steps after a run continue it. */
  lemma {:induction false} StepsContinueRun(run: seq<Action>, more: seq<Action>)
    requires Possible(run) && Steps(After(run), more).Some?
    ensures Possible(run + more) && After(run + more) == Steps(After(run), more).value
  {
    if more == [] {
      assert run + more == run;
    } else {
      var n := |more| - 1;
      var front := run + more[..n];
      StepsContinueRun(run, more[..n]);
      Extend(front, more[n]);
      assert run + more == front + [more[n]];
    }
  }

  lemma {:induction false} StepsSnoc(s: State, run: seq<Action>, a: Action)
    requires Steps(s, run).Some? && Enabled(Steps(s, run).value, a)
    ensures Steps(s, run + [a]) == Some(Next(Steps(s, run).value, a))
  {
    assert (run + [a])[..|run|] == run;
  }

  lemma {:induction false} StepsAppend(s: State, run: seq<Action>, more: seq<Action>)
    requires Steps(s, run).Some? && Steps(Steps(s, run).value, more).Some?
    ensures Steps(s, run + more) == Steps(Steps(s, run).value, more)
  {
    if more == [] {
      assert run + more == run;
    } else {
      var n := |more| - 1;
      StepsAppend(s, run, more[..n]);
      StepsSnoc(s, run + more[..n], more[n]);
      assert run + more == run + more[..n] + [more[n]];
    }
  }

  /** The steps of one thread in a run. */
  function Mine(run: seq<Action>, t: nat): seq<Action> {
    if run == [] then []
    else Mine(run[..|run| - 1], t) + if run[|run| - 1].t == t then [run[|run| - 1]] else []
  }

  lemma {:induction false} MineAppend(run: seq<Action>, more: seq<Action>, t: nat)
    ensures Mine(run + more, t) == Mine(run, t) + Mine(more, t)
  {
    if more == [] {
      assert run + more == run;
    } else {
      var n := |more| - 1;
      MineAppend(run, more[..n], t);
      assert (run + more)[..|run| + n] == run + more[..n];
    }
  }

  ghost predicate NoneMine(run: seq<Action>, t: nat) {
    forall i :: 0 <= i < |run| ==> run[i].t != t
  }

  lemma {:induction false} NoneIsMine(run: seq<Action>, t: nat)
    requires NoneMine(run, t)
    ensures Mine(run, t) == []
  {
    if run != [] { NoneIsMine(run[..|run| - 1], t); }
  }

  lemma MineOne(a: Action)
    ensures Mine([a], a.t) == [a]
  {
    assert [a][..0] == [];
  }

  /** What a thread does in drt_internal_alloc that succeeds after `rounds` rounds. */
  function CallWithRounds(t: nat, size: nat, rounds: nat): seq<Action> {
    if rounds == 0 then [Call(t, size)] else CallWithRounds(t, size, rounds - 1) + [Load(t), Cas(t)]
  }

  /** From `s` a run leads to `now` in which `t` makes `rounds` full rounds. */
  ghost predicate Progress(s: State, run: seq<Action>, now: State, t: nat, size: nat, rounds: nat) {
    Steps(s, run) == Some(now) && Mine(run, t) == CallWithRounds(t, size, rounds)
  }

  function Round(t: nat, between: seq<Action>): seq<Action> {
    [Load(t)] + between + [Cas(t)]
  }

  lemma {:induction false} RoundIsMine(t: nat, between: seq<Action>)
    requires NoneMine(between, t)
    ensures Mine(Round(t, between), t) == [Load(t), Cas(t)]
  {
    MineAppend([Load(t)], between, t);
    MineAppend([Load(t)] + between, [Cas(t)], t);
    NoneIsMine(between, t);
    MineOne(Load(t));
    MineOne(Cas(t));
  }

  lemma {:induction false} ProgressStarts(s: State, t: nat, size: nat)
    requires Enabled(s, Call(t, size))
    ensures Progress(s, [Call(t, size)], Next(s, Call(t, size)), t, size, 0)
  {
    StepsSnoc(s, [], Call(t, size));
    assert [] + [Call(t, size)] == [Call(t, size)];
    MineOne(Call(t, size));
  }

  lemma {:induction false} ProgressContinues(s: State, run: seq<Action>, before: State, now: State,
                                             between: seq<Action>, t: nat, size: nat, rounds: nat)
    requires Progress(s, run, before, t, size, rounds) && NoneMine(between, t)
    requires Steps(before, Round(t, between)) == Some(now)
    ensures Progress(s, run + Round(t, between), now, t, size, rounds + 1)
  {
    StepsAppend(s, run, Round(t, between));
    MineAppend(run, Round(t, between), t);
    RoundIsMine(t, between);
  }

  lemma {:induction false} StepsRound(s: State, between: seq<Action>, loaded: State, m: State, t: nat)
    requires Enabled(s, Load(t)) && loaded == Next(s, Load(t))
    requires Steps(loaded, between) == Some(m) && Enabled(m, Cas(t))
    ensures Steps(s, Round(t, between)) == Some(Next(m, Cas(t)))
  {
    StepsSnoc(s, [], Load(t));
    assert [] + [Load(t)] == [Load(t)];
    StepsAppend(s, [Load(t)], between);
    StepsSnoc(s, [Load(t)] + between, Cas(t));
  }

  ghost predicate LastBlock(blocks: seq<Block>, b: Block) {
    blocks != [] && blocks[|blocks| - 1] == b
  }

  /** The state after thread `t` got a block undisturbed. */
  function Allocated(s: State, t: nat, size: nat): State {
    State(AlignUp(s.used) + size, s.pcs[t := Idle], s.blocks + [Block(t, AlignUp(s.used), size)], false)
  }

  lemma AllocatedFromLoop(s: State, t: nat, size: nat)
    ensures Allocated(s.(pcs := s.pcs[t := AtLoad(size)]), t, size) == Allocated(s, t, size)
  {
    assert s.pcs[t := AtLoad(size)][t := Idle] == s.pcs[t := Idle];
  }

  lemma AlignedStays(n: nat, k: nat)
    requires n == WORD_SIZE * k
    ensures AlignUp(n) == n
  {
  }

  /** A load goes on to the compare-and-swap exactly when the block fits. */
  lemma LoadDiesIff(s: State, t: nat, size: nat)
    requires Inv(s) && !s.died && PcOf(s, t) == AtLoad(size)
    ensures Next(s, Load(t)).died <==> AlignUp(s.used) + size > POOL
  {
    assert s.pcs[t] == AtLoad(size) && AlignUp(s.used) <= POOL;
    assert NewUsed(s.used, size) == AlignUp(s.used) + size;
  }

  lemma RoundAlone(s: State, t: nat, size: nat)
    requires Inv(s) && !s.died && PcOf(s, t) == AtLoad(size) && AlignUp(s.used) + size <= POOL
    ensures !Next(s, Load(t)).died && PcOf(Next(s, Load(t)), t).AtCas?
    ensures Next(Next(s, Load(t)), Cas(t)) == Allocated(s, t, size)
  {
    LoadDiesIff(s, t, size);
    var newv := AlignUp(s.used) + size;
    assert Next(s, Load(t)).pcs == s.pcs[t := AtCas(size, s.used, newv)];
    assert s.pcs[t := AtCas(size, s.used, newv)][t := Idle] == s.pcs[t := Idle];
  }

  // ----- the allocator as it is written -----

  class Allocator {
    var used: nat
    /** The local variables of every caller. */
    var pcs: map<nat, Pc>
    ghost var blocks: seq<Block>
    var died: bool

    ghost function Abs(): State
      reads this
    {
      State(used, pcs, blocks, died)
    }

    constructor ()
      ensures Abs() == INITIAL
    {
      used, pcs, blocks, died := 0, map[], [], false;
    }

    /** Entry of drt_internal_alloc */
    method Begin(t: nat, size: nat)
      requires Enabled(Abs(), Call(t, size))
      modifies this
      ensures Abs() == Next(old(Abs()), Call(t, size))
    {
      pcs := pcs[t := AtLoad(size)];
    }

    /** The atomic load, and the computation up to the compare-and-swap */
    method LoadUsed(t: nat)
      requires Enabled(Abs(), Load(t))
      modifies this
      ensures Abs() == Next(old(Abs()), Load(t))
    {
      var size := pcs[t].size;
      var seen := used;
      var newv := (seen + WORD_SIZE - 1) / WORD_SIZE * WORD_SIZE;
      newv := (newv + size) % ADDRESS_SPACE;
      if newv > POOL {
        died := true;
        return;
      }
      pcs := pcs[t := AtCas(size, seen, newv)];
    }

    /** The atomic compare-and-swap: a block's offset, or another round */
    method CompareExchange(t: nat) returns (start: Option<nat>)
      requires Enabled(Abs(), Cas(t))
      modifies this
      ensures Abs() == Next(old(Abs()), Cas(t))
      ensures start.None? <==> blocks == old(blocks)
      ensures start.Some? ==> |blocks| > 0 && start.value == blocks[|blocks| - 1].start
    {
      var AtCas(size, seen, newv) := pcs[t];
      if used == seen {
        used := newv;
        pcs := pcs[t := Idle];
        start := Some((newv - size) % ADDRESS_SPACE);
        blocks := blocks + [Block(t, start.value, size)];
      } else {
        pcs := pcs[t := AtLoad(size)];
        start := None;
      }
    }

    /** drt_internal_alloc_reset */
    method ResetUsed(t: nat)
      requires Enabled(Abs(), Reset(t))
      modifies this
      ensures Abs() == Next(old(Abs()), Reset(t))
    {
      used := 0;
      blocks := [];
    }

    /** Any step that is enabled */
    method Perform(a: Action)
      requires Enabled(Abs(), a)
      modifies this
      ensures Abs() == Next(old(Abs()), a)
    {
      match a
      case Call(t, size) => Begin(t, size);
      case Load(t) => LoadUsed(t);
      case Cas(t) => var _ := CompareExchange(t);
      case Reset(t) => ResetUsed(t);
    }

    /** What other threads do between two steps of `t`: those of their actions that are enabled */
    method Interfere(ghost t: nat, actions: seq<Action>) returns (ghost taken: seq<Action>)
      requires Inv(Abs()) && NoneMine(actions, t) && AllSmall(actions)
      modifies this
      ensures Inv(Abs()) && Steps(old(Abs()), taken) == Some(Abs())
      ensures NoneMine(taken, t) && |taken| <= |actions| && PcOf(Abs(), t) == old(PcOf(Abs(), t))
    {
      taken := [];
      for i := 0 to |actions|
        invariant Inv(Abs()) && Steps(old(Abs()), taken) == Some(Abs())
        invariant NoneMine(taken, t) && |taken| <= i && PcOf(Abs(), t) == old(PcOf(Abs(), t))
      {
        var a := actions[i];
        if !died && AtTurn(PcIn(pcs, a.t), a) {
          NextKeepsInv(Abs(), a);
          StepsSnoc(old(Abs()), taken, a);
          Perform(a);
          taken := taken + [a];
        }
      }
    }

    /** One round of the retry loop, with what other threads do between its two steps */
    method Attempt(t: nat, ghost size: nat, between: seq<Action>) returns (start: Option<nat>, ghost taken: seq<Action>)
      requires Inv(Abs()) && !died && PcOf(Abs(), t) == AtLoad(size)
      requires NoneMine(between, t) && AllSmall(between)
      modifies this
      ensures Inv(Abs()) && NoneMine(taken, t)
      ensures died ==> start.None?
      ensures !died ==> Steps(old(Abs()), Round(t, taken)) == Some(Abs())
      ensures !died && start.None? ==> PcOf(Abs(), t) == AtLoad(size) && between != []
      ensures start.Some? ==> LastBlock(blocks, Block(t, start.value, size)) && PcOf(Abs(), t).Idle?
      ensures between == [] ==> (died <==> AlignUp(old(used)) + size > POOL)
      ensures between == [] && !died ==> Abs() == Allocated(old(Abs()), t, size) && start == Some(AlignUp(old(used)))
    {
      ghost var s := Abs();
      NextKeepsInv(s, Load(t));
      LoadDiesIff(s, t, size);
      LoadUsed(t);
      ghost var loaded := Abs();
      if died {
        return None, [];
      }
      taken := Interfere(t, between);
      if died {
        return None, taken;
      }
      NextKeepsInv(Abs(), Cas(t));
      StepsRound(s, taken, loaded, Abs(), t);
      start := CompareExchange(t);
      if between == [] {
        RoundAlone(s, t, size);
      }
    }

    /** drt_internal_alloc: the retry loop, `None` if the process dies. `others` is what other threads
        do, round by round, between its load and its compare-and-swap. */
    method Alloc(t: nat, size: nat, others: seq<seq<Action>>)
      returns (start: Option<nat>, rounds: nat, ghost run: seq<Action>)
      requires Inv(Abs()) && Enabled(Abs(), Call(t, size)) && Small(size)
      requires forall k :: 0 <= k < |others| ==> NoneMine(others[k], t) && AllSmall(others[k])
      modifies this
      ensures Inv(Abs()) && died == start.None?
      ensures start.Some? ==> LastBlock(blocks, Block(t, start.value, size))
      ensures start.Some? ==> PcOf(Abs(), t).Idle? && rounds <= |others| + 1
      ensures start.Some? ==> Progress(old(Abs()), run, Abs(), t, size, rounds)
      ensures others == [] ==> (start.None? <==> AlignUp(old(used)) + size > POOL)
      ensures others == [] && start.Some? ==>
                Abs() == Allocated(old(Abs()), t, size) && start.value == AlignUp(old(used))
    {
      ghost var s := Abs();
      NextKeepsInv(s, Call(t, size));
      AllocatedFromLoop(s, t, size);
      ProgressStarts(s, t, size);
      Begin(t, size);
      start, rounds, run := None, 0, [Call(t, size)];
      while start.None?
        invariant Inv(Abs()) && !died && Progress(s, run, Abs(), t, size, rounds)
        invariant start.None? ==> PcOf(Abs(), t) == AtLoad(size) && rounds <= |others|
        invariant start.None? && others == [] ==> Abs() == s.(pcs := s.pcs[t := AtLoad(size)])
        invariant start.Some? ==> LastBlock(blocks, Block(t, start.value, size))
        invariant start.Some? ==> PcOf(Abs(), t).Idle? && rounds <= |others| + 1
        invariant start.Some? && others == [] ==> AlignUp(s.used) + size <= POOL
        invariant start.Some? && others == [] ==> Abs() == Allocated(s, t, size) && start.value == AlignUp(s.used)
        decreases |others| + 1 - rounds
      {
        var between := if rounds < |others| then others[rounds] else [];
        ghost var before, taken := Abs(), [];
        start, taken := Attempt(t, size, between);
        if died {
          return;
        }
        ProgressContinues(s, run, before, Abs(), taken, t, size, rounds);
        run, rounds := run + Round(t, taken), rounds + 1;
      }
    }
  }
}
