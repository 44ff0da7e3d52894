/** The AddressSanitizer shadow encoding, one shadow byte per grain of eight bytes, as a set of
    inaccessible addresses. */
module AsanShadow {
  import opened Common

  const GRAIN: nat := 8
  const SHADOW_BASE: nat := 0xFFFF_8000_0000_0000
  /** Size of the mapping made for the shadow. */
  const SHADOW_SIZE: nat := 0x8000_0000_0000

  const UNPOISONED: Byte := 0x00
  const GLOBAL_REDZONE: Byte := 0xF9
  const POISONED: Byte := 0xFF

  /** Element `g` is the shadow byte of the addresses 8g .. 8g + 7. */
  type Shadow = seq<Byte>

  /** Shadow addresses are computed in 64 bits; within the mapping they do not wrap. */
  function MemToShadow(addr: nat): (s: nat)
    ensures addr / GRAIN < SHADOW_SIZE ==> s == SHADOW_BASE + addr / GRAIN
  {
    (addr / GRAIN + SHADOW_BASE) % ADDRESS_SPACE
  }

  function RoundDown(a: nat): nat {
    a / GRAIN * GRAIN
  }

  function RoundUp(a: nat): nat {
    (a + GRAIN - 1) / GRAIN * GRAIN
  }

  // ----- what the shadow means -----

  /** Byte `off` of a grain with shadow byte `v`: 0 opens the whole grain, 1..7 its first v bytes,
      anything larger nothing. */
  predicate Inaccessible(v: Byte, off: nat) {
    v != 0 && (v >= GRAIN || off >= v)
  }

  ghost function Poisoned(sh: Shadow): iset<nat> {
    iset a: nat | a / GRAIN < |sh| && Inaccessible(sh[a / GRAIN], a % GRAIN)
  }

  predicate Between(a: nat, x: nat, b: nat) {
    a <= x < b
  }

  ghost function Range(a: nat, b: nat): iset<nat> {
    iset x: nat | Between(a, x, b)
  }

  // ----- the operations on the shadow -----

  function FillGrains(sh: Shadow, lo: nat, hi: nat, val: Byte): (r: Shadow)
    ensures |r| == |sh|
    ensures forall g :: 0 <= g < |sh| ==> r[g] == if lo <= g < hi then val else sh[g]
  {
    seq(|sh|, g requires 0 <= g < |sh| => if lo <= g < hi then val else sh[g])
  }

  predicate InBounds(sh: Shadow, beg: nat, size: nat) {
    beg + size <= GRAIN * |sh|
  }

  function PoisonRange(sh: Shadow, beg: nat, size: nat, val: Byte): (r: Shadow)
    requires InBounds(sh, beg, size)
    ensures |r| == |sh|
  {
    if size == 0 then sh
    else
      var filled := FillGrains(sh, beg / GRAIN, (beg + size - 1) / GRAIN + 1, val);
      if beg % GRAIN == 0 then filled else filled[beg / GRAIN := beg % GRAIN]
  }

  function UnpoisonRange(sh: Shadow, beg: nat, size: nat): (r: Shadow)
    requires InBounds(sh, beg, size)
    ensures |r| == |sh|
  {
    if size == 0 then sh
    else FillGrains(sh, beg / GRAIN, (beg + size - 1) / GRAIN + 1, UNPOISONED)
  }

  function SetShadow(sh: Shadow, addr: nat, size: nat, val: Byte): (r: Shadow)
    requires InBounds(sh, addr, size)
    ensures |r| == |sh|
  {
    FillGrains(sh, addr / GRAIN, addr / GRAIN + size / GRAIN, val)
  }

  // ----- the operations on the set -----

  /** Poisoning keeps the grain's first bytes, before `beg`, open even if they were not, and
      closes everything up to the end of the last grain. */
  lemma PoisonOnSet(sh: Shadow, beg: nat, size: nat, val: Byte)
    requires InBounds(sh, beg, size) && size > 0 && val >= GRAIN
    ensures Poisoned(PoisonRange(sh, beg, size, val)) ==
            Poisoned(sh) - Range(RoundDown(beg), beg) + Range(beg, RoundUp(beg + size))
    ensures forall g :: 0 <= g < |sh| ==>
              PoisonRange(sh, beg, size, val)[g] ==
              if beg <= GRAIN * g < beg + size then val
              else if GRAIN * g < beg < GRAIN * g + GRAIN then beg - GRAIN * g
              else sh[g]
  {
    var sh' := PoisonRange(sh, beg, size, val);
    forall a: nat
      ensures a in Poisoned(sh') <==> a in Poisoned(sh) - Range(RoundDown(beg), beg) + Range(beg, RoundUp(beg + size))
    {
      assert a == a / GRAIN * GRAIN + a % GRAIN;
    }
  }

  /** Unpoisoning opens every grain the range touches. */
  lemma UnpoisonOnSet(sh: Shadow, beg: nat, size: nat)
    requires InBounds(sh, beg, size) && size > 0
    ensures Poisoned(UnpoisonRange(sh, beg, size)) == Poisoned(sh) - Range(RoundDown(beg), RoundUp(beg + size))
    ensures forall g :: 0 <= g < |sh| ==>
              UnpoisonRange(sh, beg, size)[g] ==
              if beg < GRAIN * g + GRAIN && GRAIN * g < beg + size then UNPOISONED else sh[g]
  {
    var sh' := UnpoisonRange(sh, beg, size);
    forall a: nat
      ensures a in Poisoned(sh') <==> a in Poisoned(sh) - Range(RoundDown(beg), RoundUp(beg + size))
    {
      assert a == a / GRAIN * GRAIN + a % GRAIN;
    }
  }

  /** The compiler's shadow fills close or open whole grains, and only as many as fit the size. */
  lemma SetShadowOnSet(sh: Shadow, addr: nat, size: nat, val: Byte)
    requires InBounds(sh, addr, size) && (val == UNPOISONED || val >= GRAIN)
    ensures var cover := Range(RoundDown(addr), RoundDown(addr) + RoundDown(size));
            Poisoned(SetShadow(sh, addr, size, val)) ==
            if val == UNPOISONED then Poisoned(sh) - cover else Poisoned(sh) + cover
    ensures forall g :: 0 <= g < |sh| ==>
              SetShadow(sh, addr, size, val)[g] ==
              if RoundDown(addr) <= GRAIN * g && GRAIN * g + GRAIN <= RoundDown(addr) + size then val else sh[g]
  {
    var sh' := SetShadow(sh, addr, size, val);
    forall a: nat
      ensures a in Poisoned(sh') <==>
              a in (if val == UNPOISONED then Poisoned(sh) - Range(RoundDown(addr), RoundDown(addr) + RoundDown(size))
                    else Poisoned(sh) + Range(RoundDown(addr), RoundDown(addr) + RoundDown(size)))
    {
      assert a == a / GRAIN * GRAIN + a % GRAIN;
    }
  }

  // ----- sequences of operations -----

  datatype Op =
    | Poison(beg: nat, size: nat, val: Byte)
    | Unpoison(beg: nat, size: nat)
    | Fill(addr: nat, size: nat, val: Byte)

  predicate Allowed(n: nat, op: Op) {
    match op
    case Poison(beg, size, val) => beg + size <= GRAIN * n && val >= GRAIN
    case Unpoison(beg, size) => beg + size <= GRAIN * n
    case Fill(addr, size, val) => addr + size <= GRAIN * n && (val == UNPOISONED || val >= GRAIN)
  }

  function Apply(sh: Shadow, op: Op): (r: Shadow)
    requires Allowed(|sh|, op)
    ensures |r| == |sh|
  {
    match op
    case Poison(beg, size, val) => PoisonRange(sh, beg, size, val)
    case Unpoison(beg, size) => UnpoisonRange(sh, beg, size)
    case Fill(addr, size, val) => SetShadow(sh, addr, size, val)
  }

  function ApplyAll(sh: Shadow, ops: seq<Op>): (r: Shadow)
    requires forall op :: op in ops ==> Allowed(|sh|, op)
    ensures |r| == |sh|
  {
    if ops == [] then sh else Apply(ApplyAll(sh, ops[..|ops| - 1]), ops[|ops| - 1])
  }

  ghost function OnSet(p: iset<nat>, op: Op): iset<nat> {
    match op
    case Poison(beg, size, _) =>
      if size == 0 then p else p - Range(RoundDown(beg), beg) + Range(beg, RoundUp(beg + size))
    case Unpoison(beg, size) =>
      if size == 0 then p else p - Range(RoundDown(beg), RoundUp(beg + size))
    case Fill(addr, size, val) =>
      var cover := Range(RoundDown(addr), RoundDown(addr) + RoundDown(size));
      if val == UNPOISONED then p - cover else p + cover
  }

  ghost function OnSetAll(p: iset<nat>, ops: seq<Op>): iset<nat> {
    if ops == [] then p else OnSet(OnSetAll(p, ops[..|ops| - 1]), ops[|ops| - 1])
  }

  lemma ApplyOnSet(sh: Shadow, op: Op)
    requires Allowed(|sh|, op)
    ensures Poisoned(Apply(sh, op)) == OnSet(Poisoned(sh), op)
  {
    match op
    case Poison(beg, size, val) => if size > 0 { PoisonOnSet(sh, beg, size, val); }
    case Unpoison(beg, size) => if size > 0 { UnpoisonOnSet(sh, beg, size); }
    case Fill(addr, size, val) => SetShadowOnSet(sh, addr, size, val);
  }

  /** Over every sequence of operations the compressed shadow is exactly the byte-level set. */
  lemma {:induction false} ShadowRefinesSet(sh: Shadow, ops: seq<Op>)
    requires forall op :: op in ops ==> Allowed(|sh|, op)
    ensures Poisoned(ApplyAll(sh, ops)) == OnSetAll(Poisoned(sh), ops)
  {
    if ops != [] {
      var front, op := ops[..|ops| - 1], ops[|ops| - 1];
      assert op in ops && Allowed(|sh|, op);
      ShadowRefinesSet(sh, front);
      ApplyOnSet(ApplyAll(sh, front), op);
    }
  }

  // ----- the access check -----

  /** asan_check_access looks at one shadow byte only: that of the first grain. */
  predicate Passes(sh: Shadow, a: nat, size: nat)
    requires a / GRAIN < |sh|
  {
    var v := sh[a / GRAIN];
    v == UNPOISONED || (v < GRAIN && a % GRAIN + size <= v)
  }

  /** An access passes if and only if none of its bytes that lie in its first grain is poisoned.
      One of no bytes passes if and only if the byte before it in its grain is not poisoned, or, at
      the start of a grain, the byte it starts at: on a closed grain it is reported. */
  lemma PassesIff(sh: Shadow, a: nat, size: nat)
    requires a / GRAIN < |sh|
    ensures size >= 1 ==>
              (Passes(sh, a, size) <==>
               forall b: nat :: a <= b < a + size && b < RoundDown(a) + GRAIN ==> b !in Poisoned(sh))
    ensures size == 0 ==>
              (Passes(sh, a, size) <==> (if a % GRAIN == 0 then a else a - 1) !in Poisoned(sh))
  {
    if size >= 1 {
      FirstGrainDecides(sh, a, size);
    } else if a % GRAIN != 0 {
      assert (a - 1) / GRAIN == a / GRAIN && (a - 1) % GRAIN == a % GRAIN - 1;
    }
  }

  lemma FirstGrainDecides(sh: Shadow, a: nat, size: nat)
    requires a / GRAIN < |sh| && size >= 1
    ensures Passes(sh, a, size) <==>
            forall b: nat :: a <= b < a + size && b < RoundDown(a) + GRAIN ==> b !in Poisoned(sh)
  {
    var end := RoundDown(a) + GRAIN;
    var last := if a + size <= end then a + size - 1 else end - 1;
    assert last / GRAIN == a / GRAIN;
    if Passes(sh, a, size) {
      forall b: nat | a <= b < a + size && b < end ensures b !in Poisoned(sh) {
        assert b / GRAIN == a / GRAIN;
      }
    } else {
      assert last in Poisoned(sh);
    }
  }

  /** For an access inside one grain that is all of its bytes. */
  lemma PassesWithinGrainIff(sh: Shadow, a: nat, size: nat)
    requires a / GRAIN < |sh| && size >= 1 && a + size <= RoundDown(a) + GRAIN
    ensures Passes(sh, a, size) <==> Poisoned(sh) * Range(a, a + size) == iset{}
  {
    PassesIff(sh, a, size);
    if Passes(sh, a, size) {
      assert forall b: nat :: b in Range(a, a + size) ==> b !in Poisoned(sh);
    } else {
      var b: nat :| a <= b < a + size && b < RoundDown(a) + GRAIN && b in Poisoned(sh);
      assert b in Poisoned(sh) * Range(a, a + size);
    }
  }

  /** __asan_address_is_poisoned */
  predicate AddressIsPoisoned(sh: Shadow, a: nat)
    requires a / GRAIN < |sh|
  {
    sh[a / GRAIN] != UNPOISONED
  }

  /** It answers for the whole grain, so it differs from the access check for exactly the
      addressable bytes of partial grains. */
  lemma AddressIsPoisonedIff(sh: Shadow, a: nat)
    requires a / GRAIN < |sh|
    ensures AddressIsPoisoned(sh, a) <==> exists b: nat :: b / GRAIN == a / GRAIN && b in Poisoned(sh)
    ensures (AddressIsPoisoned(sh, a) <==> a in Poisoned(sh)) <==> !(sh[a / GRAIN] < GRAIN && a % GRAIN < sh[a / GRAIN])
  {
    var last := RoundDown(a) + GRAIN - 1;
    assert last / GRAIN == a / GRAIN && last % GRAIN == 7;
    if AddressIsPoisoned(sh, a) {
      assert last in Poisoned(sh);
    }
  }
}
