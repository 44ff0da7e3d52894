/** Registration of globals: exactly the red zones become inaccessible, in any order. */
module AsanGlobals {
  import opened Common
  import opened AsanShadow

  datatype Global = Global(beg: nat, size: nat, sizeWithRedzone: nat)

  /** The padded extent contains the global and lies below the end of a shadow of `n` grains. */
  predicate Fits(n: nat, g: Global) {
    g.size <= g.sizeWithRedzone && g.beg + g.sizeWithRedzone <= GRAIN * n
  }

  /** What the compiler emits: also an aligned start and a padded size that is a multiple of the grain. */
  predicate WellFormed(n: nat, g: Global) {
    Fits(n, g) && g.beg % GRAIN == 0 && g.sizeWithRedzone % GRAIN == 0
  }

  /** Grain `k` belongs to the padded extent of `g`. */
  predicate Covers(g: Global, k: nat) {
    g.beg <= GRAIN * k && GRAIN * k + GRAIN <= g.beg + g.sizeWithRedzone
  }

  ghost predicate AllFit(n: nat, gs: seq<Global>) {
    forall i :: 0 <= i < |gs| ==> Fits(n, gs[i])
  }

  ghost predicate AllWellFormed(n: nat, gs: seq<Global>) {
    forall i :: 0 <= i < |gs| ==> WellFormed(n, gs[i])
  }

  ghost predicate Disjoint(gs: seq<Global>) {
    forall i, j, k: nat :: 0 <= i < |gs| && 0 <= j < |gs| && Covers(gs[i], k) && Covers(gs[j], k) ==> i == j
  }

  function RegisterOne(sh: Shadow, g: Global): (r: Shadow)
    requires Fits(|sh|, g)
    ensures |r| == |sh|
  {
    PoisonRange(UnpoisonRange(sh, g.beg, g.size), g.beg + g.size, g.sizeWithRedzone - g.size, GLOBAL_REDZONE)
  }

  /** The registration loop. */
  function RegisterAll(sh: Shadow, gs: seq<Global>): (r: Shadow)
    requires AllFit(|sh|, gs)
    ensures |r| == |sh|
  {
    if gs == [] then sh else RegisterOne(RegisterAll(sh, gs[..|gs| - 1]), gs[|gs| - 1])
  }

  lemma {:induction false} RegisterNext(sh: Shadow, gs: seq<Global>, i: nat)
    requires AllFit(|sh|, gs) && i < |gs|
    ensures RegisterAll(sh, gs[..i + 1]) == RegisterOne(RegisterAll(sh, gs[..i]), gs[i])
  {
    assert gs[..i + 1][..i] == gs[..i];
  }

  function UnregisterAll(sh: Shadow, gs: seq<Global>): (r: Shadow)
    requires AllFit(|sh|, gs)
    ensures |r| == |sh|
  {
    if gs == [] then sh
    else PoisonRange(UnregisterAll(sh, gs[..|gs| - 1]), gs[|gs| - 1].beg, gs[|gs| - 1].sizeWithRedzone, POISONED)
  }

  /** The shadow byte a global's registration is meant to leave on grain `k`: open while the grain
      lies inside the global, closed past its end, partial where it ends. */
  function GlobalGrain(g: Global, k: nat): Byte
    requires Covers(g, k)
  {
    if GRAIN * k + GRAIN <= g.beg + g.size then UNPOISONED
    else if GRAIN * k >= g.beg + g.size then GLOBAL_REDZONE
    else g.beg + g.size - GRAIN * k
  }

  lemma RegisterOneGrains(sh: Shadow, g: Global, k: nat)
    requires WellFormed(|sh|, g) && k < |sh|
    ensures RegisterOne(sh, g)[k] == if Covers(g, k) then GlobalGrain(g, k) else sh[k]
  {
  }

  lemma {:induction false} CoveredGrain(sh: Shadow, gs: seq<Global>, i: nat, k: nat)
    requires AllWellFormed(|sh|, gs) && Disjoint(gs) && k < |sh| && i < |gs| && Covers(gs[i], k)
    ensures RegisterAll(sh, gs)[k] == GlobalGrain(gs[i], k)
    decreases |gs|
  {
    var n := |gs| - 1;
    RegisterOneGrains(RegisterAll(sh, gs[..n]), gs[n], k);
    if i < n {
      assert !Covers(gs[n], k);
      assert gs[..n][i] == gs[i];
      CoveredGrain(sh, gs[..n], i, k);
    }
  }

  lemma {:induction false} UncoveredGrain(sh: Shadow, gs: seq<Global>, k: nat)
    requires AllWellFormed(|sh|, gs) && k < |sh| && forall i :: 0 <= i < |gs| ==> !Covers(gs[i], k)
    ensures RegisterAll(sh, gs)[k] == sh[k]
    decreases |gs|
  {
    if gs != [] {
      var n := |gs| - 1;
      RegisterOneGrains(RegisterAll(sh, gs[..n]), gs[n], k);
      assert forall i :: 0 <= i < n ==> gs[..n][i] == gs[i];
      UncoveredGrain(sh, gs[..n], k);
    }
  }

  /** After the loop every grain of an extent has its own global's byte, and every other grain
      is what it was. */
  lemma {:induction false} RegisteredGrains(sh: Shadow, gs: seq<Global>, k: nat)
    requires AllWellFormed(|sh|, gs) && Disjoint(gs) && k < |sh|
    ensures forall i :: 0 <= i < |gs| && Covers(gs[i], k) ==> RegisterAll(sh, gs)[k] == GlobalGrain(gs[i], k)
    ensures (forall i :: 0 <= i < |gs| ==> !Covers(gs[i], k)) ==> RegisterAll(sh, gs)[k] == sh[k]
  {
    if i :| 0 <= i < |gs| && Covers(gs[i], k) {
      CoveredGrain(sh, gs, i, k);
    } else {
      UncoveredGrain(sh, gs, k);
    }
  }

  /** Registration is exact end to end: an access of at least one byte inside one grain of a
      global's padded extent passes if and only if it ends at or before the global's end. */
  lemma {:induction false} AccessPassesIffInsideGlobal(sh: Shadow, gs: seq<Global>, i: nat, a: nat, size: nat)
    requires AllWellFormed(|sh|, gs) && Disjoint(gs) && i < |gs|
    requires size >= 1 && a + size <= RoundDown(a) + GRAIN && Covers(gs[i], a / GRAIN)
    ensures a / GRAIN < |sh|
    ensures Passes(RegisterAll(sh, gs), a, size) <==> a + size <= gs[i].beg + gs[i].size
  {
    assert WellFormed(|sh|, gs[i]);
    RegisteredGrains(sh, gs, a / GRAIN);
  }

  /** Shadow outside the extents is unchanged, even where they overlap. */
  lemma {:induction false} OutsideUnchanged(sh: Shadow, gs: seq<Global>, a: nat)
    requires AllWellFormed(|sh|, gs) && a / GRAIN < |sh|
    requires forall i :: 0 <= i < |gs| ==> !(gs[i].beg <= a < gs[i].beg + gs[i].sizeWithRedzone)
    ensures RegisterAll(sh, gs)[a / GRAIN] == sh[a / GRAIN]
  {
    forall i | 0 <= i < |gs| ensures !Covers(gs[i], a / GRAIN) {
      assert WellFormed(|sh|, gs[i]);
    }
    UncoveredGrain(sh, gs, a / GRAIN);
  }

  /** The order in which globals are registered does not matter. */
  lemma {:induction false} OrderDoesNotMatter(sh: Shadow, gs: seq<Global>, hs: seq<Global>)
    requires AllWellFormed(|sh|, gs) && Disjoint(gs) && multiset(gs) == multiset(hs)
    ensures AllFit(|sh|, hs) && RegisterAll(sh, gs) == RegisterAll(sh, hs)
  {
    ReorderedIsDisjoint(|sh|, gs, hs);
    forall k | 0 <= k < |sh| ensures RegisterAll(sh, gs)[k] == RegisterAll(sh, hs)[k] {
      RegisteredGrains(sh, gs, k);
      RegisteredGrains(sh, hs, k);
      if i :| 0 <= i < |gs| && Covers(gs[i], k) {
        var j := Find(gs, hs, i);
      } else if j :| 0 <= j < |hs| && Covers(hs[j], k) {
        var i := Find(hs, gs, j);
      }
    }
  }

  lemma {:induction false} ReorderedIsDisjoint(n: nat, gs: seq<Global>, hs: seq<Global>)
    requires AllWellFormed(n, gs) && Disjoint(gs) && multiset(gs) == multiset(hs)
    ensures AllWellFormed(n, hs) && Disjoint(hs)
  {
    forall i: nat | i < |hs| ensures WellFormed(n, hs[i]) {
      var j := Find(hs, gs, i);
    }
    forall i: nat, j: nat, k: nat | i < |hs| && j < |hs| && Covers(hs[i], k) && Covers(hs[j], k) ensures i == j {
      var i' := Find(hs, gs, i);
      var j' := Find(hs, gs, j);
      assert i' == j';
      OnlyCopy(gs, hs, i', i, j, k);
    }
  }

  /** A covering global occurs once, in either order. */
  lemma {:induction false} OnlyCopy(gs: seq<Global>, hs: seq<Global>, c: nat, i: nat, j: nat, k: nat)
    requires Disjoint(gs) && multiset(gs) == multiset(hs)
    requires c < |gs| && Covers(gs[c], k) && i < |hs| && j < |hs| && hs[i] == hs[j] == gs[c]
    ensures i == j
  {
    var g := gs[c];
    assert gs == gs[..c] + [g] + gs[c + 1..];
    assert g !in gs[..c] && g !in gs[c + 1..];
    assert multiset(gs)[g] == 1;
    if i != j {
      TwoCopies(hs, if i < j then i else j, if i < j then j else i);
    }
  }

  lemma {:induction false} TwoCopies(hs: seq<Global>, i: nat, j: nat)
    requires i < j < |hs| && hs[i] == hs[j]
    ensures multiset(hs)[hs[i]] >= 2
  {
    assert hs == hs[..i] + [hs[i]] + hs[i + 1..j] + [hs[j]] + hs[j + 1..];
  }

  lemma {:induction false} Find(gs: seq<Global>, hs: seq<Global>, i: nat) returns (j: nat)
    requires multiset(gs) == multiset(hs) && i < |gs|
    ensures j < |hs| && hs[j] == gs[i]
  {
    assert gs[i] in multiset(hs);
    j :| 0 <= j < |hs| && hs[j] == gs[i];
  }

  lemma UnregisterOneGrains(sh: Shadow, g: Global, k: nat)
    requires WellFormed(|sh|, g) && k < |sh|
    ensures PoisonRange(sh, g.beg, g.sizeWithRedzone, POISONED)[k] == if Covers(g, k) then POISONED else sh[k]
  {
  }

  ghost predicate Covered(gs: seq<Global>, k: nat) {
    exists i :: 0 <= i < |gs| && Covers(gs[i], k)
  }

  /** Unregistering closes whole extents and touches nothing else. */
  lemma {:induction false} UnregisteredGrains(sh: Shadow, gs: seq<Global>, k: nat)
    requires AllWellFormed(|sh|, gs) && k < |sh|
    ensures UnregisterAll(sh, gs)[k] == if Covered(gs, k) then POISONED else sh[k]
    decreases |gs|
  {
    if gs != [] {
      var n := |gs| - 1;
      UnregisteredGrains(sh, gs[..n], k);
      UnregisterOneGrains(UnregisterAll(sh, gs[..n]), gs[n], k);
      CoveredSnoc(gs, k);
    }
  }

  lemma {:induction false} CoveredSnoc(gs: seq<Global>, k: nat)
    requires gs != []
    ensures Covered(gs, k) <==> Covered(gs[..|gs| - 1], k) || Covers(gs[|gs| - 1], k)
  {
    var n := |gs| - 1;
    assert forall i :: 0 <= i < n ==> gs[..n][i] == gs[i];
    if Covered(gs[..n], k) {
      var i :| 0 <= i < n && Covers(gs[..n][i], k);
      assert Covers(gs[i], k);
    }
  }

  /** Registering again afterwards restores the first registration. */
  lemma {:induction false} ReregisterRestores(sh: Shadow, gs: seq<Global>)
    requires AllWellFormed(|sh|, gs) && Disjoint(gs)
    ensures RegisterAll(UnregisterAll(RegisterAll(sh, gs), gs), gs) == RegisterAll(sh, gs)
  {
    var once := RegisterAll(sh, gs);
    var gone := UnregisterAll(once, gs);
    forall k | 0 <= k < |sh| ensures RegisterAll(gone, gs)[k] == once[k] {
      RegisteredGrains(sh, gs, k);
      RegisteredGrains(gone, gs, k);
      UnregisteredGrains(once, gs, k);
      if Covered(gs, k) {
        var i :| 0 <= i < |gs| && Covers(gs[i], k);
        assert once[k] == GlobalGrain(gs[i], k);
      }
    }
  }
}
