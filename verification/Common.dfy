/** Vocabulary shared by the runtimes: optional values, machine widths and
    the exclusive-or of two machine words. */
module Common {

  datatype Option<+T> = None | Some(value: T)

  /** sizeof(void *) on the 64-bit targets the runtime is built for. */
  const WORD_SIZE: nat := 8

  /** One past the largest address (and the largest 64-bit value). */
  const ADDRESS_SPACE: nat := 0x1_0000_0000_0000_0000

  type Byte = b: nat | b < 256

  /** An address or a size. */
  type Word = w: nat | w < ADDRESS_SPACE
  type Address = Word

  /** Bitwise exclusive-or, one binary digit at a time. */
  function Xor(a: nat, b: nat): nat
    decreases a + b
  {
    if a == 0 then b
    else if b == 0 then a
    else (a + b) % 2 + 2 * Xor(a / 2, b / 2)
  }

  /** Binary digit `k` of a number. */
  function Bit(n: nat, k: nat): bool
    decreases k
  {
    if k == 0 then n % 2 == 1 else Bit(n / 2, k - 1)
  }

  /** Every binary digit of the exclusive-or tells whether the operands differ there. */
  lemma {:induction false} XorBits(a: nat, b: nat, k: nat)
    ensures Bit(Xor(a, b), k) <==> Bit(a, k) != Bit(b, k)
    decreases k
  {
    if a == 0 || b == 0 {
      ZeroBit(k);
    } else {
      var low, high := (a + b) % 2, Xor(a / 2, b / 2);
      assert Xor(a, b) == low + 2 * high;
      assert Xor(a, b) / 2 == high && Xor(a, b) % 2 == low;
      if k > 0 {
        XorBits(a / 2, b / 2, k - 1);
      }
    }
  }

  lemma {:induction false} ZeroBit(k: nat)
    ensures !Bit(0, k)
  {
    if k > 0 { ZeroBit(k - 1); }
  }

  /** The first index whose element satisfies the predicate, or the length. */
  function FirstIndex<T>(s: seq<T>, p: T -> bool): (k: nat)
    ensures k <= |s|
    ensures k < |s| ==> p(s[k])
    ensures forall i :: 0 <= i < k ==> !p(s[i])
  {
    if s == [] || p(s[0]) then 0
    else
      assert forall i :: 1 <= i < |s| ==> s[i] == s[1..][i - 1];
      1 + FirstIndex(s[1..], p)
  }
}
