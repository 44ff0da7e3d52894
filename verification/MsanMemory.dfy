/** The MemorySanitizer shadow (one byte per byte) and origins (four bytes per byte) as two regions
    of one flat memory. */
module MsanMemory {
  import opened Common

  const SHADOW_BASE: nat := 0xFFFF_7000_0000_0000
  const ORIGIN_BASE: nat := 0xFFFF_6000_0000_0000

  const INITIALIZED: Byte := 0x00
  const UNINITIALIZED: Byte := 0xFF

  /** Below this application address the two regions do not meet. */
  const LIMIT: nat := 0x400_0000_0000

  type Id = v: nat | v < 0x1_0000_0000

  function ShadowPtr(a: nat): nat {
    SHADOW_BASE + a
  }

  function OriginPtr(a: nat): nat {
    ORIGIN_BASE + a * 4
  }

  /** Memory from ORIGIN_BASE on: element `p - ORIGIN_BASE` is the byte at address `p`. */
  type Flat = m: seq<Byte> | |m| == FLAT_SIZE witness seq(FLAT_SIZE, i => INITIALIZED)

  /** Up to the end of the address space. */
  const FLAT_SIZE: nat := ADDRESS_SPACE - ORIGIN_BASE

  /** The shadow of a range does not wrap around the address space. */
  predicate ShadowFits(a: nat, n: nat) {
    ShadowPtr(a + n) <= ADDRESS_SPACE
  }

  /** Nor do its origins (nor, then, its shadow). */
  predicate OriginsFit(a: nat, n: nat) {
    OriginPtr(a + n) <= ADDRESS_SPACE
  }

  function Blank(): Flat {
    seq(FLAT_SIZE, i => INITIALIZED)
  }

  // ----- four-byte stores -----

  /** Byte `k` of a little-endian 32-bit word. */
  function ByteOf(id: Id, k: nat): Byte {
    if k == 0 then id % 256
    else if k == 1 then id / 256 % 256
    else if k == 2 then id / 256 / 256 % 256
    else id / 256 / 256 / 256
  }

  function Word(b0: Byte, b1: Byte, b2: Byte, b3: Byte): Id {
    b0 + 256 * b1 + 0x1_0000 * b2 + 0x100_0000 * b3
  }

  lemma WordOfBytes(id: Id)
    ensures Word(ByteOf(id, 0), ByteOf(id, 1), ByteOf(id, 2), ByteOf(id, 3)) == id
  {
    var q := id / 256;
    var r := q / 256;
    var t := r / 256;
    assert id == 256 * q + ByteOf(id, 0);
    assert q == 256 * r + ByteOf(id, 1);
    assert r == 256 * t + ByteOf(id, 2);
  }

  // ----- reading the regions -----

  function ShadowOf(m: Flat, a: nat): Byte
    requires ShadowFits(a, 1)
  {
    m[ShadowPtr(a) - ORIGIN_BASE]
  }

  function OriginByte(m: Flat, a: nat, k: nat): Byte
    requires OriginsFit(a, 1) && k < 4
  {
    m[OriginPtr(a) - ORIGIN_BASE + k]
  }

  function OriginOf(m: Flat, a: nat): Id
    requires OriginsFit(a, 1)
  {
    Word(OriginByte(m, a, 0), OriginByte(m, a, 1), OriginByte(m, a, 2), OriginByte(m, a, 3))
  }

  // ----- operations -----

  datatype Op = Poison(a: nat, n: nat) | Unpoison(a: nat, n: nat) | SetOrigin(a: nat, n: nat, id: Id)

  /** The original returns at once for a null address or an empty range. */
  predicate Skips(op: Op) {
    op.a == 0 || op.n == 0
  }

  /** The bytes an operation is meant for: those of its range, unless its address is null. */
  predicate Touches(op: Op, a: nat) {
    op.a != 0 && op.a <= a < op.a + op.n
  }

  function StoreShadow(m: Flat, a: nat, n: nat, v: Byte): (r: Flat)
    ensures forall i :: 0 <= i < FLAT_SIZE ==>
              r[i] == if ShadowPtr(a) - ORIGIN_BASE <= i < ShadowPtr(a + n) - ORIGIN_BASE then v else m[i]
  {
    seq(FLAT_SIZE, i requires 0 <= i < FLAT_SIZE =>
      if ShadowPtr(a) - ORIGIN_BASE <= i < ShadowPtr(a + n) - ORIGIN_BASE then v else m[i])
  }

  function StoreOrigins(m: Flat, a: nat, n: nat, id: Id): (r: Flat)
    ensures forall i :: 0 <= i < FLAT_SIZE ==>
              r[i] == if OriginPtr(a) - ORIGIN_BASE <= i < OriginPtr(a + n) - ORIGIN_BASE then ByteOf(id, i % 4)
                      else m[i]
  {
    seq(FLAT_SIZE, i requires 0 <= i < FLAT_SIZE =>
      if OriginPtr(a) - ORIGIN_BASE <= i < OriginPtr(a + n) - ORIGIN_BASE then ByteOf(id, i % 4) else m[i])
  }

  function Apply(m: Flat, op: Op): Flat {
    if Skips(op) then m
    else
      match op
      case Poison(a, n) => StoreShadow(m, a, n, UNINITIALIZED)
      case Unpoison(a, n) => StoreOrigins(StoreShadow(m, a, n, INITIALIZED), a, n, 0)
      case SetOrigin(a, n, id) => StoreOrigins(m, a, n, id)
  }

  function ApplyAll(m: Flat, ops: seq<Op>): Flat {
    if ops == [] then m else Apply(ApplyAll(m, ops[..|ops| - 1]), ops[|ops| - 1])
  }

  // ----- the regions do not interfere -----

  predicate Safe(op: Op) {
    op.a + op.n <= LIMIT
  }

  lemma ShadowStoreIsLocal(m: Flat, a: nat, n: nat, v: Byte, x: nat)
    requires a + n <= LIMIT && x < LIMIT
    ensures ShadowOf(StoreShadow(m, a, n, v), x) == if a <= x < a + n then v else ShadowOf(m, x)
    ensures OriginOf(StoreShadow(m, a, n, v), x) == OriginOf(m, x)
  {
  }

  lemma OriginStoreKeepsShadow(m: Flat, a: nat, n: nat, id: Id, x: nat)
    requires a + n <= LIMIT && x < LIMIT
    ensures ShadowOf(StoreOrigins(m, a, n, id), x) == ShadowOf(m, x)
  {
  }

  lemma OriginStoreIsLocal(m: Flat, a: nat, n: nat, id: Id, x: nat)
    requires a + n <= LIMIT && x < LIMIT
    ensures OriginOf(StoreOrigins(m, a, n, id), x) == if a <= x < a + n then id else OriginOf(m, x)
  {
    StoredByte(m, a, n, id, x, 0);
    StoredByte(m, a, n, id, x, 1);
    StoredByte(m, a, n, id, x, 2);
    StoredByte(m, a, n, id, x, 3);
    if a <= x < a + n {
      WordOfBytes(id);
    }
  }

  lemma StoredByte(m: Flat, a: nat, n: nat, id: Id, x: nat, k: nat)
    requires a + n <= LIMIT && x < LIMIT && k < 4
    ensures OriginByte(StoreOrigins(m, a, n, id), x, k) == if a <= x < a + n then ByteOf(id, k) else OriginByte(m, x, k)
  {
    assert (4 * x + k) % 4 == k;
  }

  /** One operation changes the shadow and the origin of exactly the bytes it names. */
  lemma ApplyIsLocal(m: Flat, op: Op, x: nat)
    requires Safe(op) && x < LIMIT
    ensures ShadowOf(Apply(m, op), x) ==
            if !Touches(op, x) || op.SetOrigin? then ShadowOf(m, x)
            else if op.Poison? then UNINITIALIZED else INITIALIZED
    ensures OriginOf(Apply(m, op), x) ==
            if !Touches(op, x) || op.Poison? then OriginOf(m, x)
            else if op.SetOrigin? then op.id else 0
  {
    match op
    case Poison(a, n) => ShadowStoreIsLocal(m, a, n, UNINITIALIZED, x);
    case Unpoison(a, n) =>
      ShadowStoreIsLocal(m, a, n, INITIALIZED, x);
      OriginStoreKeepsShadow(StoreShadow(m, a, n, INITIALIZED), a, n, 0, x);
      OriginStoreIsLocal(StoreShadow(m, a, n, INITIALIZED), a, n, 0, x);
    case SetOrigin(a, n, id) =>
      OriginStoreKeepsShadow(m, a, n, id, x);
      OriginStoreIsLocal(m, a, n, id, x);
  }

  /** Whether the last operation that sets the shadow of `a` poisons it. */
  predicate PoisonedBy(ops: seq<Op>, a: nat) {
    if ops == [] then false
    else
      var op := ops[|ops| - 1];
      if Touches(op, a) && !op.SetOrigin? then op.Poison? else PoisonedBy(ops[..|ops| - 1], a)
  }

  /** The origin the last set-origin or unpoison of `a` gives it; unpoisoning gives 0. */
  function OriginBy(ops: seq<Op>, a: nat): Id {
    if ops == [] then 0
    else
      var op := ops[|ops| - 1];
      if Touches(op, a) && !op.Poison? then (if op.SetOrigin? then op.id else 0)
      else OriginBy(ops[..|ops| - 1], a)
  }

  /** For ranges inside [1, 2^42) every sequence of operations on the flat memory leaves the shadow
      an exact set of bytes and the origins an exact map from bytes. */
  lemma {:induction false} RegionsAreExact(ops: seq<Op>, a: nat)
    requires (forall op :: op in ops ==> Safe(op)) && a < LIMIT
    ensures ShadowOf(ApplyAll(Blank(), ops), a) == if PoisonedBy(ops, a) then UNINITIALIZED else INITIALIZED
    ensures OriginOf(ApplyAll(Blank(), ops), a) == OriginBy(ops, a)
  {
    if ops != [] {
      var front, op := ops[..|ops| - 1], ops[|ops| - 1];
      assert op in ops;
      RegionsAreExact(front, a);
      ApplyIsLocal(ApplyAll(Blank(), front), op, a);
    }
  }

  // ----- where the regions do meet -----

  /** Byte `k` of the origin of `a` is the shadow byte of `b`. */
  predicate Coincide(a: nat, k: nat, b: nat) {
    k < 4 && OriginPtr(a) + k == ShadowPtr(b)
  }

  /** The origins of the range lie on the shadow of some address below the bound. */
  predicate MeetsShadow(a: nat, n: nat) {
    a + n > LIMIT && 4 * a < 5 * LIMIT
  }

  lemma MeetsShadowIff(a: nat, n: nat)
    requires n > 0
    ensures forall x: nat, k: nat, b: nat :: Coincide(x, k, b) <==> k < 4 && 4 * x + k == 0x1000_0000_0000 + b
    ensures MeetsShadow(a, n) <==>
            exists x: nat, k: nat, b: nat :: a <= x < a + n && b < LIMIT && Coincide(x, k, b)
  {
    if MeetsShadow(a, n) {
      var x := if a < LIMIT then LIMIT else a;
      assert Coincide(x, 0, 4 * x - 4 * LIMIT);
    }
  }

  /** What storing origins does to the shadow, wherever the range lies. */
  lemma OriginStoreOnShadow(m: Flat, a: nat, n: nat, id: Id, b: nat)
    requires ShadowFits(b, 1)
    ensures ShadowOf(StoreOrigins(m, a, n, id), b) ==
            if 4 * a <= 4 * LIMIT + b < 4 * (a + n) then ByteOf(id, b % 4) else ShadowOf(m, b)
  {
    assert (4 * LIMIT + b) % 4 == b % 4;
  }

  /** The bound is tight: setting a non-zero origin changes the shadow of an address below 2^42, in
      a memory without poisoned bytes, if and only if the range reaches past 2^42 and starts below
      5 * 2^40; and no origin changes any such shadow in any memory otherwise. */
  lemma LimitIsTight(a: nat, n: nat, id: Id)
    requires a > 0 && n > 0 && id != 0
    ensures MeetsShadow(a, n) <==>
            exists b: nat :: b < LIMIT && ShadowOf(Apply(Blank(), SetOrigin(a, n, id)), b) != INITIALIZED
    ensures !MeetsShadow(a, n) ==>
            forall m: Flat, id: Id, b: nat :: b < LIMIT ==> ShadowOf(Apply(m, SetOrigin(a, n, id)), b) == ShadowOf(m, b)
  {
    forall m: Flat, id: Id, b: nat | b < LIMIT
      ensures ShadowOf(Apply(m, SetOrigin(a, n, id)), b) ==
              if 4 * a <= 4 * LIMIT + b < 4 * (a + n) then ByteOf(id, b % 4) else ShadowOf(m, b)
    {
      OriginStoreOnShadow(m, a, n, id, b);
    }
    if MeetsShadow(a, n) {
      var k := NonZeroByte(id);
      var b := (if a < LIMIT then 0 else 4 * a - 4 * LIMIT) + k;
      assert b % 4 == k;
      assert ShadowOf(Apply(Blank(), SetOrigin(a, n, id)), b) != INITIALIZED;
    }
  }

  lemma NonZeroByte(id: Id) returns (k: nat)
    requires id != 0
    ensures k < 4 && ByteOf(id, k) != 0
  {
    if k' :| 0 <= k' < 4 && ByteOf(id, k') != 0 {
      k := k';
    } else {
      WordOfBytes(id);
      assert false;
    }
  }

  /** The least poisoned byte of a range, if there is one: what the check names. */
  ghost predicate IsLeastPoisoned(m: Flat, a: nat, n: nat, r: Option<nat>)
    requires ShadowFits(a, n)
  {
    match r
    case None => forall b :: a <= b < a + n ==> ShadowOf(m, b) == INITIALIZED
    case Some(b) =>
      && a <= b < a + n && ShadowOf(m, b) != INITIALIZED
      && forall c :: a <= c < b ==> ShadowOf(m, c) == INITIALIZED
  }
}
