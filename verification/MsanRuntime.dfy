/** The MemorySanitizer runtime as it is written, with origin tracking on, as it is in every build. */
module MsanRuntime {
  import opened Common
  import opened MsanMemory
  import M = MsanOrigins

  class Msan {
    const mem: array<Byte>
    const origins: array<M.Entry>
    var originCounter: nat

    ghost predicate Ready()
      reads this
    {
      mem.Length == FLAT_SIZE && origins.Length == M.MAX_ORIGINS && 1 <= originCounter < M.MAX_ORIGINS
    }

    ghost function Table(): (s: M.State)
      requires Ready()
      reads this, origins
      ensures M.Valid(s)
    {
      M.State(originCounter, origins[..])
    }

    constructor ()
      ensures Ready() && mem[..] == Blank() && Table() == M.Initial()
      ensures fresh(mem) && fresh(origins)
    {
      mem := new Byte[FLAT_SIZE](_ => INITIALIZED);
      origins := new M.Entry[M.MAX_ORIGINS](_ => M.Entry(0, 0, 0, false));
      originCounter := 1;
      new;
      assert mem[..] == Blank();
      assert origins[..] == M.Initial().entries;
    }

    /** The loop that stores shadow bytes */
    method FillShadow(addr: nat, size: nat, v: Byte)
      requires Ready() && ShadowFits(addr, size)
      modifies mem
      ensures mem[..] == StoreShadow(old(mem[..]), addr, size, v)
    {
      var shadow := ShadowPtr(addr) - ORIGIN_BASE;
      for i := 0 to size
        invariant forall j :: 0 <= j < mem.Length ==> mem[j] == if shadow <= j < shadow + i then v else old(mem[j])
      {
        mem[shadow + i] := v;
      }
    }

    /** The loop that stores origin words */
    method FillOrigins(addr: nat, size: nat, id: Id)
      requires Ready() && OriginsFit(addr, size)
      modifies mem
      ensures mem[..] == StoreOrigins(old(mem[..]), addr, size, id)
    {
      var origin := OriginPtr(addr) - ORIGIN_BASE;
      for i := 0 to size
        invariant forall j :: 0 <= j < mem.Length ==>
                    mem[j] == if origin <= j < origin + 4 * i then ByteOf(id, j % 4) else old(mem[j])
      {
        var p := origin + 4 * i;
        mem[p] := ByteOf(id, 0);
        mem[p + 1] := ByteOf(id, 1);
        mem[p + 2] := ByteOf(id, 2);
        mem[p + 3] := ByteOf(id, 3);
      }
    }

    method Unpoison(addr: nat, size: nat)
      requires Ready() && (addr == 0 || size == 0 || OriginsFit(addr, size))
      modifies mem
      ensures mem[..] == Apply(old(mem[..]), MsanMemory.Unpoison(addr, size))
    {
      if addr == 0 || size == 0 {
        return;
      }
      FillShadow(addr, size, INITIALIZED);
      FillOrigins(addr, size, 0);
    }

    method Poison(addr: nat, size: nat)
      requires Ready() && (addr == 0 || size == 0 || ShadowFits(addr, size))
      modifies mem
      ensures mem[..] == Apply(old(mem[..]), MsanMemory.Poison(addr, size))
    {
      if addr == 0 || size == 0 {
        return;
      }
      FillShadow(addr, size, UNINITIALIZED);
    }

    method SetOrigin(addr: nat, size: nat, id: Id)
      requires Ready() && (addr == 0 || size == 0 || OriginsFit(addr, size))
      modifies mem
      ensures mem[..] == Apply(old(mem[..]), MsanMemory.SetOrigin(addr, size, id))
    {
      if addr == 0 || size == 0 {
        return;
      }
      FillOrigins(addr, size, id);
    }

    /** __msan_check_mem_is_initialized: the byte it reports before aborting, or `None` if it
        returns. A null address and an empty range are never reported. */
    method CheckInitialized(addr: nat, size: nat) returns (bad: Option<nat>)
      requires Ready() && (addr == 0 || size == 0 || ShadowFits(addr, size))
      ensures addr == 0 || size == 0 ==> bad == None
      ensures addr != 0 && size != 0 ==> IsLeastPoisoned(mem[..], addr, size, bad)
    {
      if addr == 0 || size == 0 {
        return None;
      }
      var shadow := ShadowPtr(addr) - ORIGIN_BASE;
      for i := 0 to size
        invariant forall b :: addr <= b < addr + i ==> ShadowOf(mem[..], b) == INITIALIZED
      {
        assert mem[shadow + i] == ShadowOf(mem[..], addr + i);
        if mem[shadow + i] != INITIALIZED {
          return Some(addr + i);
        }
      }
      return None;
    }

    /** msan_alloc_origin */
    method AllocOrigin(stack: M.Stack, now: nat) returns (id: nat)
      requires Ready()
      modifies this`originCounter, origins
      ensures Ready() && Table() == M.Alloc(old(Table()), stack, now) && id == M.NextId(old(originCounter))
    {
      originCounter := originCounter + 1;
      id := originCounter;
      if id >= M.MAX_ORIGINS {
        id := 1;
        originCounter := 2;
      }
      origins[id] := origins[id].(id := id);
      origins[id] := origins[id].(active := true);
      origins[id] := origins[id].(timestamp := now);
      origins[id] := origins[id].(stack := stack);
    }

    /** __msan_chain_origin */
    method ChainOrigin(origin: nat, stack: M.Stack, now: nat) returns (id: nat)
      requires Ready() && origin < M.MAX_ORIGINS
      modifies this`originCounter, origins
      ensures Ready()
      ensures origin == 0 ==> id == 0 && Table() == old(Table())
      ensures origin != 0 ==> id == M.NextId(old(originCounter)) && Table() == M.Chain(old(Table()), origin, stack, now)
    {
      if origin == 0 {
        return 0;
      }
      id := AllocOrigin(stack, now);
      origins[id] := origins[id].(stack := origins[origin].stack);
    }
  }
}
