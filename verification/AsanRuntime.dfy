/** The AddressSanitizer runtime as it is written: loops that store shadow bytes in place. */
module AsanRuntime {
  import opened Common
  import opened AsanShadow
  import opened AsanGlobals

  class Asan {
    /** The mapped shadow: element `s - SHADOW_BASE` is the byte at shadow address `s`. */
    const shadow: array<Byte>
    var initialized: bool

    /** The shadow lies inside its mapping and ends before the address space does, so that not even
        the end of a range of shadow addresses wraps. */
    ghost predicate Ready() {
      shadow.Length < SHADOW_SIZE
    }

    constructor (grains: nat)
      requires grains < SHADOW_SIZE
      ensures Ready() && shadow.Length == grains && !initialized && fresh(shadow)
      ensures forall g :: 0 <= g < grains ==> shadow[g] == UNPOISONED
    {
      shadow := new Byte[grains](_ => UNPOISONED);
      initialized := false;
    }

    method Init()
      modifies this
      ensures initialized
    {
      initialized := true;
    }

    /** asan_poison_range */
    method PoisonRange(beg: nat, size: nat, val: Byte)
      requires Ready() && InBounds(shadow[..], beg, size)
      modifies shadow
      ensures shadow[..] == AsanShadow.PoisonRange(old(shadow[..]), beg, size, val)
    {
      if size == 0 {
        return;
      }
      var end := beg + size;
      var shadowBeg := MemToShadow(beg);
      var shadowEnd := (MemToShadow(end - 1) + 1) % ADDRESS_SPACE;
      for s := shadowBeg to shadowEnd
        invariant forall g :: 0 <= g < shadow.Length ==>
                    shadow[g] == if beg / GRAIN <= g < s - SHADOW_BASE then val else old(shadow[g])
      {
        shadow[s - SHADOW_BASE] := val;
      }
      ghost var filled := FillGrains(old(shadow[..]), beg / GRAIN, (end - 1) / GRAIN + 1, val);
      assert shadow[..] == filled;
      var grainBeg := RoundDown(beg);
      if grainBeg != beg {
        var partial := (beg - grainBeg) % GRAIN;
        shadow[MemToShadow(grainBeg) - SHADOW_BASE] := partial;
        assert shadow[..] == filled[beg / GRAIN := partial];
      }
    }

    /** asan_unpoison_range */
    method UnpoisonRange(beg: nat, size: nat)
      requires Ready() && InBounds(shadow[..], beg, size)
      modifies shadow
      ensures shadow[..] == AsanShadow.UnpoisonRange(old(shadow[..]), beg, size)
    {
      if size == 0 {
        return;
      }
      var end := beg + size;
      var shadowBeg := MemToShadow(beg);
      var shadowEnd := (MemToShadow(end - 1) + 1) % ADDRESS_SPACE;
      for s := shadowBeg to shadowEnd
        invariant forall g :: 0 <= g < shadow.Length ==>
                    shadow[g] == if beg / GRAIN <= g < s - SHADOW_BASE then UNPOISONED else old(shadow[g])
      {
        shadow[s - SHADOW_BASE] := UNPOISONED;
      }
    }

    /** misan_set_shadow */
    method SetShadow(addr: nat, size: nat, val: Byte)
      requires Ready() && InBounds(shadow[..], addr, size)
      modifies shadow
      ensures shadow[..] == AsanShadow.SetShadow(old(shadow[..]), addr, size, val)
    {
      var base := MemToShadow(addr) - SHADOW_BASE;
      for i := 0 to size / GRAIN
        invariant forall g :: 0 <= g < shadow.Length ==>
                    shadow[g] == if base <= g < base + i then val else old(shadow[g])
      {
        shadow[base + i] := val;
      }
    }

    /** asan_check_access: true when it returns, false when it reports and aborts */
    method CheckAccess(a: nat, size: nat) returns (passes: bool)
      requires Ready() && a / GRAIN < shadow.Length
      ensures passes <==> !initialized || Passes(shadow[..], a, size)
    {
      if !initialized {
        return true;
      }
      var grain := RoundDown(a);
      var v := shadow[MemToShadow(grain) - SHADOW_BASE];
      if v == UNPOISONED {
        return true;
      }
      if v > 0 && v < GRAIN {
        var accessible := v;
        if (a - grain) + size <= accessible {
          return true;
        }
      }
      return false;
    }

    /** __asan_register_globals */
    method RegisterGlobals(globals: seq<Global>)
      requires Ready() && AllFit(shadow.Length, globals)
      modifies this, shadow
      ensures initialized && shadow[..] == RegisterAll(old(shadow[..]), globals)
    {
      if !initialized {
        Init();
      }
      for i := 0 to |globals|
        invariant initialized && shadow[..] == RegisterAll(old(shadow[..]), globals[..i])
      {
        RegisterNext(old(shadow[..]), globals, i);
        RegisterGlobal(globals[i]);
      }
      assert globals[..|globals|] == globals;
    }

    /** The loop body of __asan_register_globals */
    method RegisterGlobal(g: Global)
      requires Ready() && Fits(shadow.Length, g)
      modifies shadow
      ensures shadow[..] == RegisterOne(old(shadow[..]), g)
    {
      UnpoisonRange(g.beg, g.size);
      PoisonRange(g.beg + g.size, g.sizeWithRedzone - g.size, GLOBAL_REDZONE);
    }

    /** __asan_unregister_globals */
    method UnregisterGlobals(globals: seq<Global>)
      requires Ready() && AllFit(shadow.Length, globals)
      modifies shadow
      ensures shadow[..] == UnregisterAll(old(shadow[..]), globals)
    {
      for i := 0 to |globals|
        invariant shadow[..] == UnregisterAll(old(shadow[..]), globals[..i])
      {
        var g := globals[i];
        assert Fits(shadow.Length, g);
        assert globals[..i + 1][..i] == globals[..i];
        PoisonRange(g.beg, g.sizeWithRedzone, POISONED);
      }
      assert globals[..|globals|] == globals;
    }
  }
}
