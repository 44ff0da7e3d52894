/** Open addressing with linear probing, on the view both ThreadSanitizer
    tables share: slot i holds `Some(key)` while it is active and `None`
    while it is not. */
module ProbeTable {
  import opened Common

  type Keys = seq<Option<nat>>

  /** The slot `d` steps after `start`, wrapping at the end of a table of `n` slots. */
  function Wrap(start: nat, d: nat, n: nat): (i: nat)
    requires start < n && d < n
    ensures i < n
  {
    if start + d < n then start + d else start + d - n
  }

  /** How many steps a probe that begins at `start` needs to arrive at slot `i`. */
  function Distance(start: nat, i: nat, n: nat): (d: nat)
    requires start < n && i < n
    ensures d < n && Wrap(start, d, n) == i
  {
    if start <= i then i - start else i + n - start
  }

  /** A probe for `key` ends at a slot that holds it, and, when it may
      allocate, at an inactive slot. */
  predicate Stops(ks: Keys, i: nat, key: nat, alloc: bool)
    requires i < |ks|
  {
    ks[i] == Some(key) || (ks[i].None? && alloc)
  }

  /** The probe loop from step `d` on. */
  function ProbeFrom(ks: Keys, start: nat, key: nat, alloc: bool, d: nat): (r: Option<nat>)
    requires start < |ks| && d <= |ks|
    ensures r.Some? ==> r.value < |ks| && Stops(ks, r.value, key, alloc)
    decreases |ks| - d
  {
    if d == |ks| then None
    else if Stops(ks, Wrap(start, d, |ks|), key, alloc) then Some(Wrap(start, d, |ks|))
    else ProbeFrom(ks, start, key, alloc, d + 1)
  }

  function Probe(ks: Keys, start: nat, key: nat, alloc: bool): (r: Option<nat>)
    requires start < |ks|
    ensures r.Some? ==> r.value < |ks| && Stops(ks, r.value, key, alloc)
  {
    ProbeFrom(ks, start, key, alloc, 0)
  }

  /** What a probe returns, said without the loop: the first stopping slot in
      probe order, and nothing only when no slot of the table stops it. */
  ghost predicate IsFirstStop(ks: Keys, start: nat, key: nat, alloc: bool, r: Option<nat>)
    requires start < |ks|
  {
    match r
    case Some(i) =>
      && i < |ks|
      && Stops(ks, i, key, alloc)
      && forall d: nat :: d < Distance(start, i, |ks|) ==> !Stops(ks, Wrap(start, d, |ks|), key, alloc)
    case None => forall i: nat :: i < |ks| ==> !Stops(ks, i, key, alloc)
  }

  lemma {:induction false} ProbeFromIsFirstStop(ks: Keys, start: nat, key: nat, alloc: bool, d: nat)
    requires start < |ks| && d <= |ks|
    requires forall e: nat :: e < d ==> !Stops(ks, Wrap(start, e, |ks|), key, alloc)
    ensures IsFirstStop(ks, start, key, alloc, ProbeFrom(ks, start, key, alloc, d))
    decreases |ks| - d
  {
    if d == |ks| {
      forall i: nat | i < |ks| ensures !Stops(ks, i, key, alloc) {
        assert Wrap(start, Distance(start, i, |ks|), |ks|) == i;
      }
    } else if !Stops(ks, Wrap(start, d, |ks|), key, alloc) {
      ProbeFromIsFirstStop(ks, start, key, alloc, d + 1);
    }
  }

  lemma ProbeIsFirstStop(ks: Keys, start: nat, key: nat, alloc: bool)
    requires start < |ks|
    ensures IsFirstStop(ks, start, key, alloc, Probe(ks, start, key, alloc))
  {
    ProbeFromIsFirstStop(ks, start, key, alloc, 0);
  }

  /** First stops are unique, so a loop that finds one has found the probe's result. */
  lemma FirstStopUnique(ks: Keys, start: nat, key: nat, alloc: bool, a: Option<nat>, b: Option<nat>)
    requires start < |ks|
    requires IsFirstStop(ks, start, key, alloc, a) && IsFirstStop(ks, start, key, alloc, b)
    ensures a == b
  {
    if a.Some? && b.Some? {
      var da, db := Distance(start, a.value, |ks|), Distance(start, b.value, |ks|);
      assert Wrap(start, da, |ks|) == a.value && Wrap(start, db, |ks|) == b.value;
    }
  }

  // ----- the table as a set of keys -----

  ghost function KeySet(ks: Keys): set<nat> {
    set i | 0 <= i < |ks| && ks[i].Some? :: ks[i].value
  }

  ghost predicate Unique(ks: Keys) {
    forall i, j :: 0 <= i < |ks| && 0 <= j < |ks| && ks[i].Some? && ks[i] == ks[j] ==> i == j
  }

  ghost predicate HashesInto(hash: nat -> nat, n: nat) {
    forall key :: hash(key) < n
  }

  /** No inactive slot lies between the slot a key hashes to and the slot that holds it. */
  ghost predicate NoGap(ks: Keys, hash: nat -> nat)
    requires HashesInto(hash, |ks|)
  {
    forall i, d: nat ::
      0 <= i < |ks| && ks[i].Some? && d < Distance(hash(ks[i].value), i, |ks|) ==>
        ks[Wrap(hash(ks[i].value), d, |ks|)].Some?
  }

  ghost predicate WellFormed(ks: Keys, hash: nat -> nat)
    requires HashesInto(hash, |ks|)
  {
    Unique(ks) && NoGap(ks, hash)
  }

  /** The table after a probe that may allocate. */
  function Insert(ks: Keys, start: nat, key: nat): (r: Keys)
    requires start < |ks|
  {
    match Probe(ks, start, key, true)
    case Some(i) => ks[i := Some(key)]
    case None => ks
  }

  /** A table with pairwise different keys is full exactly when it has as many keys as slots. */
  lemma {:induction false} FullIffCapacity(ks: Keys)
    requires Unique(ks)
    ensures |KeySet(ks)| <= |ks|
    ensures |KeySet(ks)| == |ks| <==> forall i :: 0 <= i < |ks| ==> ks[i].Some?
  {
    if ks == [] {
      assert KeySet(ks) == {};
    } else {
      var init, last := ks[..|ks| - 1], ks[|ks| - 1];
      assert forall i :: 0 <= i < |init| ==> init[i] == ks[i];
      FullIffCapacity(init);
      if last.Some? {
        assert last.value !in KeySet(init);
        assert KeySet(ks) == KeySet(init) + {last.value};
      } else {
        assert KeySet(ks) == KeySet(init);
      }
    }
  }

  /** A probe that may not allocate succeeds exactly for the keys in the
      table, whatever holes the table has. */
  lemma FindIffMember(ks: Keys, start: nat, key: nat)
    requires start < |ks|
    ensures var r := Probe(ks, start, key, false);
            && (r.Some? <==> key in KeySet(ks))
            && (r.Some? ==> r.value < |ks| && ks[r.value] == Some(key))
  {
    ProbeIsFirstStop(ks, start, key, false);
    if Probe(ks, start, key, false).Some? {
      assert ks[Probe(ks, start, key, false).value].value in KeySet(ks);
    } else if key in KeySet(ks) {
      var i :| 0 <= i < |ks| && ks[i] == Some(key);
      assert Stops(ks, i, key, false);
    }
  }

  /** Filling a hole adds one key. */
  lemma KeySetAdd(ks: Keys, k: nat, key: nat)
    requires k < |ks| && ks[k].None? && Unique(ks) && key !in KeySet(ks)
    ensures KeySet(ks[k := Some(key)]) == KeySet(ks) + {key} && Unique(ks[k := Some(key)])
  {
    var ks' := ks[k := Some(key)];
    assert ks'[k] == Some(key);
    forall x | x in KeySet(ks) ensures x in KeySet(ks') {
      var i :| 0 <= i < |ks| && ks[i] == Some(x);
      assert ks'[i] == Some(x);
    }
  }

  /** Filling the first hole after a key's hash index leaves no gap. */
  lemma NoGapKept(ks: Keys, hash: nat -> nat, key: nat, k: nat)
    requires HashesInto(hash, |ks|) && NoGap(ks, hash)
    requires k < |ks| && IsFirstStop(ks, hash(key), key, true, Some(k))
    ensures NoGap(ks[k := Some(key)], hash)
  {
    var n, ks' := |ks|, ks[k := Some(key)];
    forall i, d: nat | 0 <= i < n && ks'[i].Some? && d < Distance(hash(ks'[i].value), i, n)
      ensures ks'[Wrap(hash(ks'[i].value), d, n)].Some?
    {
      if i == k {
        assert !Stops(ks, Wrap(hash(key), d, n), key, true);
      } else {
        assert ks[Wrap(hash(ks[i].value), d, n)].Some?;
      }
    }
  }

  /** For every hash into the table: an allocating probe keeps keys unique and
      reachable without a gap, adds exactly its key, returns the slot of a key
      that is already there, and fails only for a new key in a full table. */
  lemma InsertRefinesSet(ks: Keys, hash: nat -> nat, key: nat)
    requires HashesInto(hash, |ks|) && WellFormed(ks, hash)
    ensures var r, ks' := Probe(ks, hash(key), key, true), Insert(ks, hash(key), key);
            && |ks'| == |ks| && WellFormed(ks', hash)
            && (r.None? <==> key !in KeySet(ks) && |KeySet(ks)| == |ks|)
            && (r.None? ==> ks' == ks)
            && (r.Some? ==> r.value < |ks| && ks'[r.value] == Some(key) && KeySet(ks') == KeySet(ks) + {key})
            && (key in KeySet(ks) ==> ks' == ks)
            && (forall i :: 0 <= i < |ks| && ks[i].Some? ==> ks'[i] == ks[i])
  {
    var r := Probe(ks, hash(key), key, true);
    ProbeIsFirstStop(ks, hash(key), key, true);
    if key in KeySet(ks) {
      var i :| 0 <= i < |ks| && ks[i] == Some(key);
      AllocatingProbeFindsKey(ks, hash(key), key, i);
      assert ks[i := Some(key)] == ks;
      assert KeySet(ks) + {key} == KeySet(ks);
    } else {
      RoomIffSmall(ks, hash(key), key);
      if r.Some? {
        KeySetAdd(ks, r.value, key);
        NoGapKept(ks, hash, key, r.value);
      }
    }
  }

  /** A new key finds a hole exactly while there are fewer keys than slots. */
  lemma RoomIffSmall(ks: Keys, start: nat, key: nat)
    requires start < |ks| && Unique(ks) && key !in KeySet(ks)
    ensures var r := Probe(ks, start, key, true);
            && |KeySet(ks)| <= |ks|
            && (r.Some? <==> |KeySet(ks)| < |ks|)
            && (r.Some? ==> ks[r.value].None?)
  {
    FullIffCapacity(ks);
    ProbeIsFirstStop(ks, start, key, true);
    if Probe(ks, start, key, true).None? {
      forall i | 0 <= i < |ks| ensures ks[i].Some? {
        assert !Stops(ks, i, key, true);
      }
    }
  }

  /** Without a gap before it, a key's only slot is where an allocating probe ends. */
  lemma AllocatingProbeFindsKey(ks: Keys, start: nat, key: nat, i: nat)
    requires start < |ks| && Unique(ks) && i < |ks| && ks[i] == Some(key)
    requires forall d: nat :: d < Distance(start, i, |ks|) ==> ks[Wrap(start, d, |ks|)].Some?
    ensures Probe(ks, start, key, true) == Some(i)
  {
    ProbeIsFirstStop(ks, start, key, true);
    forall d: nat | d < Distance(start, i, |ks|)
      ensures !Stops(ks, Wrap(start, d, |ks|), key, true)
    {
      var e := Wrap(start, d, |ks|);
      assert e != i;
    }
    FirstStopUnique(ks, start, key, true, Some(i), Probe(ks, start, key, true));
  }

  /** No inactive slot lies between `start` and a slot that holds the key. */
  ghost predicate NoHoleBefore(ks: Keys, start: nat, key: nat)
    requires start < |ks|
  {
    forall i, d: nat :: 0 <= i < |ks| && ks[i] == Some(key) && d < Distance(start, i, |ks|) ==>
      ks[Wrap(start, d, |ks|)].Some?
  }

  /** In a table with holes, inserting keeps the keys unique if and only if the key is absent or
      every slot from where the probe starts up to the key's own is active. */
  lemma InsertKeepsUniqueIff(ks: Keys, start: nat, key: nat)
    requires start < |ks| && Unique(ks)
    ensures Unique(Insert(ks, start, key)) <==> NoHoleBefore(ks, start, key)
  {
    ProbeIsFirstStop(ks, start, key, true);
    var r, ks' := Probe(ks, start, key, true), Insert(ks, start, key);
    if key !in KeySet(ks) {
      assert forall i :: 0 <= i < |ks| ==> ks[i] != Some(key);
      if r.Some? { KeySetAdd(ks, r.value, key); }
    } else {
      var i :| 0 <= i < |ks| && ks[i] == Some(key);
      if NoHoleBefore(ks, start, key) {
        AllocatingProbeFindsKey(ks, start, key, i);
        assert ks' == ks;
      } else {
        HoleStopsProbe(ks, start, key, i);
        assert ks'[r.value] == ks'[i] == Some(key);
      }
    }
  }

  /** A hole before the key's slot ends an allocating probe early. */
  lemma HoleStopsProbe(ks: Keys, start: nat, key: nat, i: nat)
    requires start < |ks| && Unique(ks) && i < |ks| && ks[i] == Some(key) && !NoHoleBefore(ks, start, key)
    ensures var r := Probe(ks, start, key, true); r.Some? && r.value != i
  {
    ProbeIsFirstStop(ks, start, key, true);
    var d: nat :| d < Distance(start, i, |ks|) && ks[Wrap(start, d, |ks|)].None?;
    assert Stops(ks, Wrap(start, d, |ks|), key, true);
  }}
