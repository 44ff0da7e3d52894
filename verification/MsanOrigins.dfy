/** Origin ids: a wrapping counter, and what chaining keeps. Captured stack traces are opaque. */
module MsanOrigins {
  const MAX_ORIGINS: nat := 65536
  /** How many allocations lie between two uses of an id. */
  const PERIOD: nat := MAX_ORIGINS - 2

  type Stack = nat

  datatype Entry = Entry(id: nat, stack: Stack, timestamp: nat, active: bool)
  datatype State = State(counter: nat, entries: seq<Entry>)

  ghost predicate Valid(s: State) {
    |s.entries| == MAX_ORIGINS && 1 <= s.counter < MAX_ORIGINS
  }

  /** The counter is incremented first, so the first id is 2; wrapping hands out 1 and leaves the
      counter at 2, so 2 is never handed out again. */
  function NextId(counter: nat): (id: nat)
    requires 1 <= counter < MAX_ORIGINS
    ensures 1 <= id < MAX_ORIGINS
  {
    if counter + 1 >= MAX_ORIGINS then 1 else counter + 1
  }

  function NextCounter(counter: nat): (c: nat)
    requires 1 <= counter < MAX_ORIGINS
    ensures 1 <= c < MAX_ORIGINS
  {
    if counter + 1 >= MAX_ORIGINS then 2 else counter + 1
  }

  function Alloc(s: State, stack: Stack, now: nat): (r: State)
    requires Valid(s)
    ensures Valid(r)
  {
    var id := NextId(s.counter);
    State(NextCounter(s.counter), s.entries[id := Entry(id, stack, now, true)])
  }

  /** __msan_chain_origin for a non-zero origin: the new entry takes over the old one's stack. */
  function Chain(s: State, origin: nat, stack: Stack, now: nat): (r: State)
    requires Valid(s) && 0 < origin < MAX_ORIGINS
    ensures Valid(r)
  {
    var id, s' := NextId(s.counter), Alloc(s, stack, now);
    s'.(entries := s'.entries[id := s'.entries[id].(stack := s'.entries[origin].stack)])
  }

  // ----- the sequence of ids -----

  function CounterAfter(k: nat): (c: nat)
    ensures 1 <= c < MAX_ORIGINS
  {
    if k == 0 then 1 else NextCounter(CounterAfter(k - 1))
  }

  /** The id of the k-th allocation since the program started, counting from 0. */
  function IdAt(k: nat): nat {
    NextId(CounterAfter(k))
  }

  lemma {:induction false} CounterClosedForm(k: nat)
    ensures CounterAfter(k) == if k == 0 then 1 else (k - 1) % PERIOD + 2
  {
    if k > 1 {
      CounterClosedForm(k - 1);
      ModStep(k - 2);
    }
  }

  lemma ModStep(n: nat)
    ensures (n + 1) % PERIOD == if n % PERIOD == PERIOD - 1 then 0 else n % PERIOD + 1
  {
  }

  lemma IdClosedForm(k: nat)
    ensures IdAt(k) == if k == 0 then 2 else if k % 65534 == 0 then 1 else k % 65534 + 2
  {
    CounterClosedForm(k);
    if k > 0 { ModStep(k - 1); }
  }

  /** Ids recycle exactly: every id lies in 1..65535, and the ids of two allocations agree if and
      only if the allocations are a multiple of 65534 apart and the earlier is not the very first. */
  lemma IdsRecycleExactly(i: nat, j: nat)
    requires i < j
    ensures 1 <= IdAt(i) < MAX_ORIGINS
    ensures IdAt(i) == IdAt(j) <==> i >= 1 && (j - i) % PERIOD == 0
  {
    IdClosedForm(i);
    IdClosedForm(j);
    SameRemainder(i, j);
    if i == 0 && j % PERIOD == 0 {
      assert IdAt(j) == 1;
    }
  }

  lemma SameRemainder(i: nat, j: nat)
    requires i < j
    ensures (j - i) % PERIOD == 0 <==> i % PERIOD == j % PERIOD
  {
    var qi, qj := i / PERIOD, j / PERIOD;
    assert i == PERIOD * qi + i % PERIOD && j == PERIOD * qj + j % PERIOD;
    var d := (j - i) / PERIOD;
    assert j - i == PERIOD * d + (j - i) % PERIOD;
  }

  /** So any 65534 consecutive allocations get pairwise different ids, across any number of wraps. */
  lemma WindowIsDistinct(start: nat)
    ensures forall i: nat, j: nat :: start <= i < j < start + PERIOD ==> IdAt(i) != IdAt(j)
  {
    forall i: nat, j: nat | start <= i < j < start + PERIOD ensures IdAt(i) != IdAt(j) {
      IdsRecycleExactly(i, j);
    }
  }

  // ----- what the table holds -----

  function Initial(): State {
    State(1, seq(MAX_ORIGINS, i => Entry(0, 0, 0, false)))
  }

  /** A call of the allocator by itself, or of __msan_chain_origin with any origin; `stack` is the
      one captured during the call. */
  datatype Call = Plain(stack: Stack) | Chained(origin: nat, stack: Stack)

  predicate Allocates(c: Call) {
    c.Plain? || c.origin != 0
  }

  predicate InTable(c: Call) {
    c.Chained? ==> c.origin < MAX_ORIGINS
  }

  ghost predicate AllInTable(calls: seq<Call>) {
    forall i :: 0 <= i < |calls| ==> InTable(calls[i])
  }

  function Perform(s: State, c: Call): (r: State)
    requires Valid(s) && InTable(c)
    ensures Valid(r)
  {
    match c
    case Plain(stack) => Alloc(s, stack, 0)
    case Chained(origin, stack) => if origin == 0 then s else Chain(s, origin, stack, 0)
  }

  /** How many of the calls allocate an id. */
  function Allocations(calls: seq<Call>): nat {
    if calls == [] then 0
    else Allocations(calls[..|calls| - 1]) + if Allocates(calls[|calls| - 1]) then 1 else 0
  }

  function PerformAll(calls: seq<Call>): (s: State)
    requires AllInTable(calls)
    ensures Valid(s) && s.counter == CounterAfter(Allocations(calls))
  {
    if calls == [] then Initial() else Perform(PerformAll(calls[..|calls| - 1]), calls[|calls| - 1])
  }

  /** The stack a call gives its new entry: the one captured, or the one its origin has, unless
      the new entry takes that very origin's place. */
  function StackGiven(s: State, c: Call): Stack
    requires Valid(s) && InTable(c) && Allocates(c)
  {
    if c.Plain? || c.origin == NextId(s.counter) then c.stack else s.entries[c.origin].stack
  }

  ghost predicate Carries(s: State, id: nat, stack: Stack)
    requires Valid(s) && id < MAX_ORIGINS
  {
    s.entries[id].id == id && s.entries[id].active && s.entries[id].stack == stack
  }

  lemma PerformFills(s: State, c: Call)
    requires Valid(s) && InTable(c) && Allocates(c)
    ensures Carries(Perform(s, c), NextId(s.counter), StackGiven(s, c))
  {
  }

  lemma PerformSpares(s: State, c: Call, id: nat, stack: Stack)
    requires Valid(s) && InTable(c) && id < MAX_ORIGINS && Carries(s, id, stack)
    requires Allocates(c) ==> id != NextId(s.counter)
    ensures Carries(Perform(s, c), id, stack)
  {
  }

  /** The id a call of the run allocates, if it does. */
  function IdOf(calls: seq<Call>, i: nat): nat
    requires i < |calls|
  {
    IdAt(Allocations(calls[..i]))
  }

  lemma {:induction false} AllocationsGrow(calls: seq<Call>, i: nat)
    requires i < |calls|
    ensures Allocations(calls) >= Allocations(calls[..i]) + if Allocates(calls[i]) then 1 else 0
    decreases |calls|
  {
    var n := |calls| - 1;
    if i < n {
      AllocationsGrow(calls[..n], i);
      assert calls[..n][..i] == calls[..i];
    }
  }

  /** In every run an entry keeps the stack its call gave it until 65534 more ids have been
      allocated; the very first entry keeps it for ever. */
  lemma {:induction false} EntryLives(calls: seq<Call>, i: nat)
    requires AllInTable(calls) && i < |calls| && Allocates(calls[i])
    requires var k := Allocations(calls[..i]); k == 0 || Allocations(calls) <= k + PERIOD
    ensures Carries(PerformAll(calls), IdOf(calls, i), StackGiven(PerformAll(calls[..i]), calls[i]))
    decreases |calls|
  {
    var n, k := |calls| - 1, Allocations(calls[..i]);
    var front := calls[..n];
    if i < n {
      assert front[..i] == calls[..i];
      AllocationsGrow(front, i);
      EntryLives(front, i);
      IdsRecycleExactly(k, Allocations(front));
      PerformSpares(PerformAll(front), calls[n], IdAt(k), StackGiven(PerformAll(calls[..i]), calls[i]));
    } else {
      PerformFills(PerformAll(front), calls[n]);
    }
  }

  /** The call that allocates the 65534th id after it takes an entry's place, unless that entry
      was the very first. */
  lemma {:induction false} EntryReplaced(calls: seq<Call>, i: nat, j: nat)
    requires AllInTable(calls) && i < j < |calls| && Allocates(calls[i]) && Allocates(calls[j])
    requires 1 <= Allocations(calls[..i]) && Allocations(calls[..j]) == Allocations(calls[..i]) + PERIOD
    requires Allocations(calls) <= Allocations(calls[..j]) + PERIOD
    ensures IdOf(calls, i) == IdOf(calls, j)
    ensures Carries(PerformAll(calls), IdOf(calls, i), StackGiven(PerformAll(calls[..j]), calls[j]))
  {
    IdsRecycleExactly(Allocations(calls[..i]), Allocations(calls[..j]));
    EntryLives(calls, j);
  }

  // ----- chains -----

  /** Chaining once per captured stack, each time from the id the last step returned. */
  function ChainAll(s: State, origin: nat, stacks: seq<Stack>): (r: (State, nat))
    requires Valid(s) && 0 < origin < MAX_ORIGINS
    ensures Valid(r.0) && 0 < r.1 < MAX_ORIGINS
  {
    if stacks == [] then (s, origin)
    else
      var (s', o) := ChainAll(s, origin, stacks[..|stacks| - 1]);
      (Chain(s', o, stacks[|stacks| - 1], 0), NextId(s'.counter))
  }

  /** However long a chain, its end carries the stack of the origin it started from, if and only
      if the first step does not recycle that very origin (or happens to capture the same stack). */
  lemma {:induction false} ChainKeepsStackIff(s: State, origin: nat, stacks: seq<Stack>)
    requires Valid(s) && 0 < origin < MAX_ORIGINS && stacks != []
    ensures var (s', o) := ChainAll(s, origin, stacks);
            && o == NextIdOf(s.counter, |stacks|)
            && s'.entries[o].stack == if NextId(s.counter) == origin then stacks[0] else s.entries[origin].stack
    decreases |stacks|
  {
    var front := stacks[..|stacks| - 1];
    if front != [] {
      ChainKeepsStackIff(s, origin, front);
      var (s', o) := ChainAll(s, origin, front);
      ChainCounter(s, origin, front);
      assert NextId(s'.counter) != o;
    } else {
      assert ChainAll(s, origin, front) == (s, origin);
    }
  }

  function CounterFrom(c: nat, k: nat): (r: nat)
    requires 1 <= c < MAX_ORIGINS
    ensures 1 <= r < MAX_ORIGINS
  {
    if k == 0 then c else NextCounter(CounterFrom(c, k - 1))
  }

  /** The id of the k-th allocation from counter value `c` on, k >= 1. */
  function NextIdOf(c: nat, k: nat): nat
    requires 1 <= c < MAX_ORIGINS && k >= 1
  {
    NextId(CounterFrom(c, k - 1))
  }

  lemma {:induction false} ChainCounter(s: State, origin: nat, stacks: seq<Stack>)
    requires Valid(s) && 0 < origin < MAX_ORIGINS
    ensures ChainAll(s, origin, stacks).0.counter == CounterFrom(s.counter, |stacks|)
  {
    if stacks != [] { ChainCounter(s, origin, stacks[..|stacks| - 1]); }
  }

  /** In particular, after any run of calls, a chain from the latest id always keeps its stack. */
  lemma {:induction false} ChainFromLatestKeepsStack(calls: seq<Call>, stacks: seq<Stack>)
    requires AllInTable(calls) && Allocations(calls) >= 1 && stacks != []
    ensures var s, latest := PerformAll(calls), IdAt(Allocations(calls) - 1);
            var (s', o) := ChainAll(s, latest, stacks);
            s'.entries[o].stack == s.entries[latest].stack
  {
    var k := Allocations(calls) - 1;
    IdsRecycleExactly(k, k + 1);
    ChainKeepsStackIff(PerformAll(calls), IdAt(k), stacks);
  }
}
