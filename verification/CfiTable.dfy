/** The control-flow-integrity table: a hash table of chains whose nodes live in the bump pool. */
module CfiTable {
  import opened Common
  import B = BumpAllocator

  const BUCKETS: nat := 4096
  /** sizeof(cfi_entry_t) */
  const ENTRY_SIZE: nat := 24

  /** The size of `k` entries. */
  function Bytes(k: nat): nat {
    24 * k
  }

  /** A node's address is its offset in the pool; `None` is the null pointer. */
  datatype Entry = Entry(typeHash: nat, vtable: nat, next: Option<nat>)

  type Heap = map<nat, Entry>
  type Pair = (nat, nat)

  function PairOf(e: Entry): Pair {
    (e.typeHash, e.vtable)
  }

  // ----- the hash -----

  function ShiftBytes(val: nat, i: nat): nat {
    if i == 0 then val else ShiftBytes(val, i - 1) / 256
  }

  /** FNV-1a over the first `i` bytes of a value, least significant first, in 32 bits. */
  function Fnv(val: nat, i: nat): nat {
    if i == 0 then 2166136261
    else Xor(Fnv(val, i - 1), ShiftBytes(val, i - 1) % 256) * 16777619 % 0x1_0000_0000
  }

  /** The eight bytes of a 64-bit value, least significant first. */
  function LittleEndian(val: nat, count: nat): (bytes: seq<Byte>)
    ensures |bytes| == count
  {
    if count == 0 then [] else [val % 256] + LittleEndian(val / 256, count - 1)
  }

  /** The 32-bit FNV-1a hash of a byte sequence, from the hash `h` of what comes before it. */
  function Fnv1a(h: nat, bytes: seq<Byte>): nat
    decreases |bytes|
  {
    if bytes == [] then h else Fnv1a(Xor(h, bytes[0]) * 0x0100_0193 % 0x1_0000_0000, bytes[1..])
  }

  /** The loop's hash is FNV-1a of the value's bytes, from the offset basis on. */
  lemma {:induction false} FnvIsFnv1a(val: nat, i: nat, rest: nat)
    ensures Fnv1a(Fnv(val, i), LittleEndian(ShiftBytes(val, i), rest)) == Fnv(val, i + rest)
    decreases rest
  {
    if rest > 0 {
      FnvIsFnv1a(val, i + 1, rest - 1);
    }
  }

  function Bucket(p: Pair): (b: nat)
    ensures b < BUCKETS
  {
    Fnv(Xor(p.0, p.1), 8) % BUCKETS
  }

  // ----- chains -----

  /** Following `next` from `head` visits exactly `nodes`, in order, and then ends. */
  ghost predicate IsChain(heap: Heap, head: Option<nat>, nodes: seq<nat>)
    decreases |nodes|
  {
    if nodes == [] then head == None
    else head == Some(nodes[0]) && nodes[0] in heap && IsChain(heap, heap[nodes[0]].next, nodes[1..])
  }

  /** Any hash of pairs into the buckets. */
  type Hash = h: Pair -> nat | forall p :: h(p) < BUCKETS witness p => 0

  ghost predicate AllChains(table: seq<Option<nat>>, heap: Heap, chains: seq<seq<nat>>) {
    && |table| == BUCKETS && |chains| == BUCKETS
    && forall b :: 0 <= b < BUCKETS ==> IsChain(heap, table[b], chains[b])
  }

  /** Every node on a chain hashes to its bucket. */
  ghost predicate RightBucket(heap: Heap, chains: seq<seq<nat>>, hash: Hash) {
    forall b, i :: 0 <= b < |chains| && 0 <= i < |chains[b]| ==>
      chains[b][i] in heap && hash(PairOf(heap[chains[b][i]])) == b
  }

  /** The pairs on a chain are pairwise different. */
  ghost predicate NoDuplicates(heap: Heap, nodes: seq<nat>)
    requires forall i :: 0 <= i < |nodes| ==> nodes[i] in heap
  {
    forall i, j :: 0 <= i < j < |nodes| ==> PairOf(heap[nodes[i]]) != PairOf(heap[nodes[j]])
  }

  ghost predicate AllLinked(heap: Heap, chains: seq<seq<nat>>, hash: Hash)
    requires |chains| == BUCKETS
  {
    forall n :: n in heap ==> n in chains[hash(PairOf(heap[n]))]
  }

  /** Every bucket is a chain of nodes that hash to it, with pairwise different pairs, and every
      node of the heap is in its bucket's chain. */
  ghost predicate WellFormed(table: seq<Option<nat>>, heap: Heap, chains: seq<seq<nat>>, hash: Hash) {
    && AllChains(table, heap, chains)
    && RightBucket(heap, chains, hash)
    && (forall b :: 0 <= b < BUCKETS ==> NoDuplicates(heap, chains[b]))
    && AllLinked(heap, chains, hash)
  }

  ghost function Contents(heap: Heap): set<Pair> {
    set n | n in heap :: PairOf(heap[n])
  }

  /** A chain read from any of its nodes on is a chain. */
  lemma {:induction false} ChainSuffix(heap: Heap, head: Option<nat>, nodes: seq<nat>, k: nat)
    requires IsChain(heap, head, nodes) && k <= |nodes|
    ensures k < |nodes| ==> nodes[k] in heap
    ensures k < |nodes| ==> IsChain(heap, Some(nodes[k]), nodes[k..])
    ensures k > 0 ==> nodes[k - 1] in heap && heap[nodes[k - 1]].next == if k < |nodes| then Some(nodes[k]) else None
    ensures k == 0 ==> head == if nodes == [] then None else Some(nodes[0])
    decreases k
  {
    if k > 0 {
      ChainSuffix(heap, heap[nodes[0]].next, nodes[1..], k - 1);
      assert nodes[1..][k - 1..] == nodes[k..];
    }
  }

  /** Storing a new node leaves every chain that does not visit it alone. */
  lemma {:induction false} ChainFrame(heap: Heap, head: Option<nat>, nodes: seq<nat>, n: nat, e: Entry)
    requires IsChain(heap, head, nodes) && n !in heap
    ensures IsChain(heap[n := e], head, nodes)
    decreases |nodes|
  {
    if nodes != [] {
      ChainFrame(heap, heap[nodes[0]].next, nodes[1..], n, e);
    }
  }

  /** Chains are acyclic and pairwise disjoint: each node occurs once, in one chain. */
  lemma ChainsAreDisjoint(table: seq<Option<nat>>, heap: Heap, chains: seq<seq<nat>>, hash: Hash,
                         b: nat, i: nat, c: nat, j: nat)
    requires WellFormed(table, heap, chains, hash)
    requires b < BUCKETS && i < |chains[b]| && c < BUCKETS && j < |chains[c]| && chains[b][i] == chains[c][j]
    ensures b == c && i == j
  {
    assert hash(PairOf(heap[chains[b][i]])) == b;
    assert hash(PairOf(heap[chains[c][j]])) == c;
    assert NoDuplicates(heap, chains[b]);
  }

  ghost function Linked(heap: Heap, n: nat, p: Pair, next: Option<nat>): Heap {
    heap[n := Entry(p.0, p.1, next)]
  }

  lemma {:induction false} InsertKeepsChains(table: seq<Option<nat>>, heap: Heap, chains: seq<seq<nat>>,
                                             n: nat, p: Pair, b: nat)
    requires AllChains(table, heap, chains) && n !in heap && b < BUCKETS
    ensures AllChains(table[b := Some(n)], Linked(heap, n, p, table[b]), chains[b := [n] + chains[b]])
  {
    var chains' := chains[b := [n] + chains[b]];
    forall c | 0 <= c < BUCKETS ensures IsChain(Linked(heap, n, p, table[b]), table[b := Some(n)][c], chains'[c]) {
      ChainFrame(heap, table[c], chains[c], n, Entry(p.0, p.1, table[b]));
      if c == b { assert chains'[b][1..] == chains[b]; }
    }
  }

  lemma InsertKeepsLinks(heap: Heap, chains: seq<seq<nat>>, hash: Hash, n: nat, p: Pair, next: Option<nat>)
    requires |chains| == BUCKETS && AllLinked(heap, chains, hash) && n !in heap
    ensures AllLinked(Linked(heap, n, p, next), chains[hash(p) := [n] + chains[hash(p)]], hash)
  {
    var b, heap' := hash(p), Linked(heap, n, p, next);
    var chains' := chains[b := [n] + chains[b]];
    forall m | m in heap' ensures m in chains'[hash(PairOf(heap'[m]))] {
      if m == n {
        assert chains'[b][0] == n;
      } else {
        var c := hash(PairOf(heap[m]));
        var i :| 0 <= i < |chains[c]| && chains[c][i] == m;
        assert c == b ==> chains'[b][i + 1] == m;
      }
    }
  }

  lemma InsertGrowsContents(heap: Heap, n: nat, p: Pair, next: Option<nat>)
    requires n !in heap
    ensures Contents(Linked(heap, n, p, next)) == Contents(heap) + {p}
    ensures |Linked(heap, n, p, next)| == |heap| + 1
  {
    var heap' := Linked(heap, n, p, next);
    assert PairOf(heap'[n]) == p;
    forall q | q in Contents(heap) ensures q in Contents(heap') {
      var m :| m in heap && PairOf(heap[m]) == q;
      assert m in heap' && PairOf(heap'[m]) == q;
    }
    assert heap'.Keys == heap.Keys + {n};
  }

  lemma InsertKeepsBuckets(heap: Heap, chains: seq<seq<nat>>, hash: Hash, n: nat, p: Pair, next: Option<nat>)
    requires |chains| == BUCKETS && RightBucket(heap, chains, hash) && n !in heap
    ensures RightBucket(Linked(heap, n, p, next), chains[hash(p) := [n] + chains[hash(p)]], hash)
  {
  }

  lemma InsertKeepsDistinct(heap: Heap, nodes: seq<nat>, n: nat, p: Pair, next: Option<nat>)
    requires (forall i :: 0 <= i < |nodes| ==> nodes[i] in heap) && NoDuplicates(heap, nodes)
    requires n !in heap && p !in Contents(heap)
    ensures NoDuplicates(Linked(heap, n, p, next), nodes)
    ensures NoDuplicates(Linked(heap, n, p, next), [n] + nodes)
  {
    forall i | 0 <= i < |nodes| ensures PairOf(heap[nodes[i]]) != p {
      assert nodes[i] in heap;
    }
  }

  /** Linking a fresh node for a new pair at the head of its bucket's chain keeps the table. */
  lemma {:induction false} InsertKeepsWellFormed(table: seq<Option<nat>>, heap: Heap, chains: seq<seq<nat>>,
                                                 hash: Hash, n: nat, p: Pair)
    requires WellFormed(table, heap, chains, hash) && n !in heap && p !in Contents(heap)
    ensures var b := hash(p);
            WellFormed(table[b := Some(n)], Linked(heap, n, p, table[b]), chains[b := [n] + chains[b]], hash)
  {
    var b := hash(p);
    InsertKeepsChains(table, heap, chains, n, p, b);
    InsertKeepsLinks(heap, chains, hash, n, p, table[b]);
    InsertKeepsBuckets(heap, chains, hash, n, p, table[b]);
    var heap', chains' := Linked(heap, n, p, table[b]), chains[b := [n] + chains[b]];
    forall c | 0 <= c < BUCKETS ensures NoDuplicates(heap', chains'[c]) {
      InsertKeepsDistinct(heap, chains[c], n, p, table[b]);
    }
  }

  ghost predicate HasNodeOf(heap: Heap, nodes: seq<nat>, p: Pair) {
    exists i :: 0 <= i < |nodes| && nodes[i] in heap && PairOf(heap[nodes[i]]) == p
  }

  /** Walking a bucket's chain decides membership. */
  lemma WalkDecides(table: seq<Option<nat>>, heap: Heap, chains: seq<seq<nat>>, hash: Hash, p: Pair)
    requires WellFormed(table, heap, chains, hash)
    ensures p in Contents(heap) <==> HasNodeOf(heap, chains[hash(p)], p)
  {
    var b := hash(p);
    if p in Contents(heap) {
      var n :| n in heap && PairOf(heap[n]) == p;
      var i :| 0 <= i < |chains[b]| && chains[b][i] == n;
    }
  }

  ghost predicate NodesBelow(heap: Heap, limit: nat) {
    forall n :: n in heap ==> n < limit
  }

  lemma NodesBelowGrows(heap: Heap, heap': Heap, n: nat, limit: nat)
    requires NodesBelow(heap, n) && heap'.Keys == heap.Keys + {n} && n < limit
    ensures NodesBelow(heap', limit)
  {
    forall m | m in heap' ensures m < limit {
      assert m in heap'.Keys;
    }
  }

  // ----- the table as a whole -----

  /** Buckets, nodes, and the chains the nodes form. */
  datatype Table = Table(buckets: seq<Option<nat>>, heap: Heap, chains: seq<seq<nat>>)

  function Empty(): Table {
    Table(seq(BUCKETS, _ => None), map[], seq(BUCKETS, _ => []))
  }

  ghost function Pairs(t: Table): set<Pair> {
    Contents(t.heap)
  }

  /** The table has the pool to itself, so its nodes lie one after the other. */
  ghost predicate Good(t: Table, hash: Hash) {
    && WellFormed(t.buckets, t.heap, t.chains, hash)
    && NodesBelow(t.heap, Bytes(|t.heap|))
    && |t.heap| == |Pairs(t)|
  }

  predicate Sized(t: Table) {
    |t.buckets| == BUCKETS && |t.chains| == BUCKETS
  }

  /** cfi_insert, when the pool has room */
  ghost function Inserted(t: Table, p: Pair, hash: Hash): (r: Table)
    requires Sized(t)
    ensures Sized(r)
  {
    if p in Pairs(t) then t else Link(t, p, hash)
  }

  /** The new node becomes the head of its bucket's chain. */
  ghost function Link(t: Table, p: Pair, hash: Hash): (r: Table)
    requires Sized(t)
    ensures Sized(r)
  {
    var b, n := hash(p), Bytes(|t.heap|);
    Table(t.buckets[b := Some(n)], Linked(t.heap, n, p, t.buckets[b]), t.chains[b := [n] + t.chains[b]])
  }

  lemma {:induction false} LinkGrows(t: Table, p: Pair, hash: Hash)
    requires Good(t, hash) && p !in Pairs(t)
    ensures Pairs(Link(t, p, hash)) == Pairs(t) + {p} && |Link(t, p, hash).heap| == |t.heap| + 1
  {
    InsertGrowsContents(t.heap, Bytes(|t.heap|), p, t.buckets[hash(p)]);
  }

  lemma {:induction false} LinkKeepsWellFormed(t: Table, p: Pair, hash: Hash)
    requires Good(t, hash) && p !in Pairs(t)
    ensures var t' := Link(t, p, hash); WellFormed(t'.buckets, t'.heap, t'.chains, hash)
  {
    InsertKeepsWellFormed(t.buckets, t.heap, t.chains, hash, Bytes(|t.heap|), p);
  }

  lemma {:induction false} LinkStaysBelow(t: Table, p: Pair, hash: Hash)
    requires Good(t, hash) && p !in Pairs(t)
    ensures NodesBelow(Link(t, p, hash).heap, Bytes(|t.heap| + 1))
  {
    NodesBelowGrows(t.heap, Link(t, p, hash).heap, Bytes(|t.heap|), Bytes(|t.heap| + 1));
  }

  lemma {:induction false} LinkKeepsGood(t: Table, p: Pair, hash: Hash)
    requires Good(t, hash) && p !in Pairs(t)
    ensures Good(Link(t, p, hash), hash) && Pairs(Link(t, p, hash)) == Pairs(t) + {p}
    ensures |Link(t, p, hash).heap| == |t.heap| + 1
  {
    LinkGrows(t, p, hash);
    LinkKeepsWellFormed(t, p, hash);
    LinkStaysBelow(t, p, hash);
  }

  lemma {:induction false} InsertedKeepsGood(t: Table, p: Pair, hash: Hash)
    requires Good(t, hash)
    ensures Good(Inserted(t, p, hash), hash) && Pairs(Inserted(t, p, hash)) == Pairs(t) + {p}
  {
    if p in Pairs(t) {
      assert Pairs(t) + {p} == Pairs(t);
    } else {
      LinkKeepsGood(t, p, hash);
    }
  }

  lemma EmptyIsGood(hash: Hash)
    ensures Good(Empty(), hash) && Pairs(Empty()) == {}
  {
  }

  /** The table after a sequence of inserts. */
  ghost function AllInserted(ps: seq<Pair>, hash: Hash): (t: Table)
    ensures Sized(t)
  {
    if ps == [] then Empty() else Inserted(AllInserted(ps[..|ps| - 1], hash), ps[|ps| - 1], hash)
  }

  ghost function SetOf(ps: seq<Pair>): set<Pair> {
    set p | p in ps
  }

  lemma SetOfSnoc(ps: seq<Pair>)
    requires ps != []
    ensures SetOf(ps) == SetOf(ps[..|ps| - 1]) + {ps[|ps| - 1]}
  {
    assert ps == ps[..|ps| - 1] + [ps[|ps| - 1]];
  }

  /** After any sequence of inserts, and for any hash, the table is well-formed and holds exactly
      the inserted pairs. */
  lemma {:induction false} InsertsRefineSet(ps: seq<Pair>, hash: Hash)
    ensures Good(AllInserted(ps, hash), hash) && Pairs(AllInserted(ps, hash)) == SetOf(ps)
    decreases |ps|
  {
    if ps == [] {
      EmptyIsGood(hash);
    } else {
      InsertsRefineSet(ps[..|ps| - 1], hash);
      InsertedKeepsGood(AllInserted(ps[..|ps| - 1], hash), ps[|ps| - 1], hash);
      SetOfSnoc(ps);
    }
  }

  /** There is one node for each pair, so the pool holds any 10922 different pairs, and no more. */
  lemma {:induction false} PoolCapacity(ps: seq<Pair>, hash: Hash)
    ensures |AllInserted(ps, hash).heap| == |SetOf(ps)|
    ensures Bytes(|AllInserted(ps, hash).heap|) <= B.POOL <==> |SetOf(ps)| <= 10922
  {
    InsertsRefineSet(ps, hash);
  }

  /** A walk down the right bucket finds a pair if and only if it was inserted. */
  lemma LookupIffInserted(ps: seq<Pair>, p: Pair, hash: Hash)
    ensures var t := AllInserted(ps, hash); HasNodeOf(t.heap, t.chains[hash(p)], p) <==> p in ps
  {
    InsertsRefineSet(ps, hash);
    var t := AllInserted(ps, hash);
    WalkDecides(t.buckets, t.heap, t.chains, hash, p);
  }

  /** The hash the runtime uses. */
  const HASH: Hash := Bucket

  // ----- the table as it is written -----

  class Cfi {
    const table: array<Option<nat>>
    var heap: Heap
    const pool: B.Allocator
    /** The buckets and nodes, with the chains they form. */
    ghost var model: Table

    /** The fields are the model's. */
    ghost predicate Matches()
      reads this, table
    {
      table[..] == model.buckets && heap == model.heap
    }

    /** The pool has handed out `k` entries, one after the other. */
    ghost predicate PoolHolds(k: nat)
      reads pool
    {
      B.Inv(pool.Abs()) && !pool.died && B.PcOf(pool.Abs(), 0).Idle? && pool.used == Bytes(k)
    }

    ghost predicate Ready()
      reads this, table, pool
    {
      Matches() && Good(model, HASH) && PoolHolds(|model.heap|)
    }

    constructor ()
      ensures Ready() && model == Empty()
      ensures fresh(table) && fresh(pool)
    {
      table := new Option<nat>[BUCKETS](_ => None);
      heap := map[];
      pool := new B.Allocator();
      model := Empty();
      new;
      EmptyIsGood(HASH);
      assert table[..] == Empty().buckets;
    }

    /** cfi_hash_uint64 */
    static method HashUint64(val: nat) returns (idx: nat)
      ensures idx == Fnv1a(0x811C_9DC5, LittleEndian(val, 8)) % BUCKETS
      ensures idx == Fnv(val, 8) % BUCKETS
    {
      FnvIsFnv1a(val, 0, 8);
      var h := 2166136261;
      var shifted := val;
      for i := 0 to 8
        invariant h == Fnv(val, i) && shifted == ShiftBytes(val, i)
      {
        h := Xor(h, shifted % 256);
        h := h * 16777619 % 0x1_0000_0000;
        shifted := shifted / 256;
      }
      return h % BUCKETS;
    }

    static method BucketOf(typeHash: nat, vtable: nat) returns (idx: nat)
      ensures idx == HASH((typeHash, vtable))
    {
      idx := HashUint64(Xor(typeHash, vtable));
    }

    /** The walk down one chain */
    method Walk(head: Option<nat>, ghost nodes: seq<nat>, typeHash: nat, vtable: nat) returns (found: Option<nat>)
      requires IsChain(heap, head, nodes)
      ensures found.Some? ==> found.value in heap && PairOf(heap[found.value]) == (typeHash, vtable)
      ensures found.Some? <==> HasNodeOf(heap, nodes, (typeHash, vtable))
    {
      ghost var k := 0;
      var e := head;
      ChainSuffix(heap, head, nodes, 0);
      while e.Some?
        invariant k <= |nodes| && e == if k < |nodes| then Some(nodes[k]) else None
        invariant forall i :: 0 <= i < k ==> nodes[i] in heap && PairOf(heap[nodes[i]]) != (typeHash, vtable)
        decreases |nodes| - k
      {
        ChainSuffix(heap, head, nodes, k);
        if heap[e.value].typeHash == typeHash && heap[e.value].vtable == vtable {
          return e;
        }
        ChainSuffix(heap, head, nodes, k + 1);
        e := heap[e.value].next;
        k := k + 1;
      }
      return None;
    }

    /** cfi_lookup: the node, if the pair is in the table */
    method Lookup(typeHash: nat, vtable: nat) returns (found: Option<nat>)
      requires Matches() && Good(model, HASH)
      ensures found.Some? <==> (typeHash, vtable) in Pairs(model)
      ensures found.Some? ==> found.value in heap && PairOf(heap[found.value]) == (typeHash, vtable)
    {
      var idx := BucketOf(typeHash, vtable);
      WalkDecides(model.buckets, model.heap, model.chains, HASH, (typeHash, vtable));
      assert table[idx] == model.buckets[idx];
      found := Walk(table[idx], model.chains[idx], typeHash, vtable);
    }

    /** Storage for one entry, from the bump allocator */
    method AllocEntry(ghost k: nat) returns (n: Option<nat>)
      requires PoolHolds(k)
      modifies pool
      ensures n.None? <==> Bytes(k + 1) > B.POOL
      ensures n.Some? ==> n.value == Bytes(k) && PoolHolds(k + 1)
    {
      B.AlignedStays(pool.used, 3 * k);
      var rounds;
      ghost var run;
      n, rounds, run := pool.Alloc(0, ENTRY_SIZE, []);
    }

    /** cfi_insert: false when the pool is exhausted, where the original dies */
    method Insert(typeHash: nat, vtable: nat) returns (ok: bool)
      requires Ready()
      modifies this`heap, this`model, table, pool
      ensures ok <==> (typeHash, vtable) in Pairs(old(model)) || Bytes(|old(model).heap| + 1) <= B.POOL
      ensures ok ==> Ready() && model == Inserted(old(model), (typeHash, vtable), HASH)
    {
      var known := Lookup(typeHash, vtable);
      if known.Some? {
        return true;
      }
      LinkKeepsGood(model, (typeHash, vtable), HASH);
      ok := InsertNew(typeHash, vtable);
    }

    method InsertNew(typeHash: nat, vtable: nat) returns (ok: bool)
      requires Matches() && Sized(model) && PoolHolds(|model.heap|)
      modifies this`heap, this`model, table, pool
      ensures ok <==> Bytes(|old(model).heap| + 1) <= B.POOL
      ensures ok ==> Matches() && PoolHolds(|old(model).heap| + 1)
      ensures ok ==> model == Link(old(model), (typeHash, vtable), HASH)
    {
      var n := AllocEntry(|model.heap|);
      if n.None? {
        return false;
      }
      StoreNode(n.value, typeHash, vtable);
      return true;
    }

    /** The node's fields, and the bucket's new head */
    method StoreNode(n: nat, typeHash: nat, vtable: nat)
      requires Matches() && Sized(model) && n == Bytes(|heap|)
      modifies this`heap, this`model, table
      ensures Matches() && model == Link(old(model), (typeHash, vtable), HASH)
    {
      var idx := BucketOf(typeHash, vtable);
      assert table[idx] == model.buckets[idx];
      heap := heap[n := Entry(typeHash, vtable, table[idx])];
      table[idx] := Some(n);
      model := Link(model, (typeHash, vtable), HASH);
      assert table[..] == model.buckets;
    }
  }
}
