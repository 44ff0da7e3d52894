/** Printing numbers: a digit buffer filled from the least significant end and drained backwards. */
module DigitPrinter {
  import opened Common

  const BUFFER: nat := 32

  predicate Base(b: nat) {
    b == 10 || b == 16
  }

  // ----- positional notation -----

  lemma QuotientBetween(n: nat, base: nat)
    requires 2 <= base <= n
    ensures 0 < n / base < n && 0 <= n % base < base
  {
    DivBelow(n, base, 1);
    DivBelow(n, base, n);
    MulMonotone(n, 2, base);
    assert base * n == n * base;
  }

  /** The digits of `n`, most significant first. */
  function Digits(n: nat, base: nat): (r: seq<nat>)
    requires base >= 2
    ensures |r| >= 1 && forall i :: 0 <= i < |r| ==> r[i] < base
    ensures n != 0 ==> r[0] != 0
  {
    if n < base then [n]
    else
      QuotientBetween(n, base);
      Digits(n / base, base) + [n % base]
  }

  function Eval(ds: seq<nat>, base: nat): nat {
    if ds == [] then 0 else Eval(ds[..|ds| - 1], base) * base + ds[|ds| - 1]
  }

  lemma DivisionIdentity(n: nat, base: nat)
    requires base >= 1
    ensures n == (n / base) * base + n % base
  {
    assert n == base * (n / base) + n % base;
  }

  lemma DigitsStep(n: nat, base: nat)
    requires base >= 2
    ensures n % base < base && (n / base > 0 ==> n / base < n)
    ensures n / base == 0 ==> n % base == n && Digits(n, base) == [n % base]
    ensures n / base > 0 ==> Digits(n, base) == Digits(n / base, base) + [n % base]
  {
    DivisionIdentity(n, base);
    DivBelow(n, base, 1);
    if n >= base {
      QuotientBetween(n, base);
    }
  }

  lemma {:induction false} EvalDigits(n: nat, base: nat)
    requires base >= 2
    ensures Eval(Digits(n, base), base) == n
    decreases n
  {
    DigitsStep(n, base);
    DivisionIdentity(n, base);
    if n / base > 0 {
      EvalDigits(n / base, base);
    }
    EvalLastDigit(n, base, n / base, n % base);
  }

  lemma EvalLastDigit(n: nat, base: nat, q: nat, r: nat)
    requires base >= 2 && n == q * base + r
    requires q == 0 ==> Digits(n, base) == [r]
    requires q > 0 ==> Digits(n, base) == Digits(q, base) + [r] && Eval(Digits(q, base), base) == q
    ensures Eval(Digits(n, base), base) == n
  {
    EvalAppend(if q == 0 then [] else Digits(q, base), r, base);
    assert [] + [r] == [r];
  }

  lemma EvalAppend(ds: seq<nat>, d: nat, base: nat)
    ensures Eval(ds + [d], base) == Eval(ds, base) * base + d
  {
    assert (ds + [d])[..|ds|] == ds;
  }

  /** Digits are the only notation: no leading zero, every digit below the base, value `n`. */
  lemma {:induction false} DigitsAreCanonical(ds: seq<nat>, base: nat)
    requires base >= 2 && ds != [] && forall i :: 0 <= i < |ds| ==> ds[i] < base
    requires |ds| > 1 ==> ds[0] != 0
    ensures Digits(Eval(ds, base), base) == ds
  {
    var front, last := ds[..|ds| - 1], ds[|ds| - 1];
    if front == [] {
      assert Eval(front, base) == 0;
      assert ds == [last];
    } else {
      DigitsAreCanonical(front, base);
      var e := Eval(front, base);
      EvalPositive(front, base);
      DivMod(e, base, last);
      assert ds == front + [last];
    }
  }

  lemma {:induction false} EvalPositive(ds: seq<nat>, base: nat)
    requires base >= 2 && ds != [] && (|ds| > 1 ==> ds[0] != 0) && Digits(Eval(ds, base), base) == ds
    ensures Eval(ds, base) > 0 || ds == [0]
  {
  }

  lemma DivMod(q: nat, base: nat, r: nat)
    requires r < base
    ensures (q * base + r) / base == q && (q * base + r) % base == r
    ensures q > 0 ==> q * base + r >= base
  {
    var x := q * base + r;
    var d := x / base - q;
    assert x == base * (x / base) + x % base;
    assert base * d == r - x % base;
    assert base * -d == -(base * d);
    if d > 0 {
      MulAtLeast(base, d);
    } else if d < 0 {
      MulAtLeast(base, -d);
    }
    if q > 0 { MulAtLeast(base, q); }
  }

  lemma MulAtLeast(b: nat, k: nat)
    requires k >= 1
    ensures b * k >= b
  {
  }

  function Pow(b: nat, k: nat): nat {
    if k == 0 then 1 else b * Pow(b, k - 1)
  }

  /** A number has at most `k` digits if and only if it is below base^k. */
  lemma {:induction false} DigitCount(n: nat, base: nat, k: nat)
    requires base >= 2 && k >= 1
    ensures |Digits(n, base)| <= k <==> n < Pow(base, k)
    decreases k
  {
    if k == 1 {
      assert Pow(base, 1) == base * Pow(base, 0);
    } else if n < base {
      DigitCount(n, base, k - 1);
      MulAtLeast(Pow(base, k - 1), base);
      assert Pow(base, k) >= Pow(base, k - 1);
    } else {
      DigitCount(n / base, base, k - 1);
      DivBelow(n, base, Pow(base, k - 1));
    }
  }

  lemma DivBelow(n: nat, base: nat, p: nat)
    requires base >= 2
    ensures n / base < p <==> n < base * p
  {
    var q := n / base;
    assert base * q <= n < base * (q + 1) by {
      assert n == base * q + n % base;
    }
    if q < p {
      assert base * (q + 1) <= base * p by { MulMonotone(base, q + 1, p); }
    } else {
      MulMonotone(base, p, q);
    }
  }

  lemma MulMonotone(b: nat, x: nat, y: nat)
    requires x <= y
    ensures b * x <= b * y
  {
  }

  lemma {:induction false} PowAdd(b: nat, j: nat, k: nat)
    ensures Pow(b, j + k) == Pow(b, j) * Pow(b, k)
  {
    if j > 0 {
      PowAdd(b, j - 1, k);
      MulAssociative(b, Pow(b, j - 1), Pow(b, k));
    }
  }

  lemma MulAssociative(x: nat, y: nat, z: nat)
    ensures x * (y * z) == (x * y) * z
  {
  }

  /** 64-bit numbers fit the buffer with room to spare. */
  lemma DigitsFit(n: nat, base: nat)
    requires Base(base) && n < ADDRESS_SPACE
    ensures |Digits(n, base)| <= if base == 10 then 20 else 16
  {
    if base == 10 {
      assert Pow(10, 5) == 100000;
      PowAdd(10, 5, 5);
      PowAdd(10, 10, 10);
      DigitCount(n, 10, 20);
    } else {
      assert Pow(16, 4) == 0x10000;
      PowAdd(16, 4, 4);
      PowAdd(16, 8, 8);
      DigitCount(n, 16, 16);
    }
  }

  // ----- characters -----

  function DigitChar(d: nat, upper: bool): char
    requires d < 16
  {
    if d < 10 then '0' + d as char
    else if upper then 'A' + (d - 10) as char
    else 'a' + (d - 10) as char
  }

  function DigitTable(upper: bool): (table: string)
    ensures |table| == 16 && forall d :: 0 <= d < 16 ==> table[d] == DigitChar(d, upper)
  {
    if upper then "0123456789ABCDEF" else "0123456789abcdef"
  }

  function DigitValue(c: char): Option<nat> {
    if '0' <= c <= '9' then Some((c - '0') as nat)
    else if 'a' <= c <= 'f' then Some((c - 'a') as nat + 10)
    else if 'A' <= c <= 'F' then Some((c - 'A') as nat + 10)
    else None
  }

  function Render(ds: seq<nat>, upper: bool): (r: string)
    requires forall i :: 0 <= i < |ds| ==> ds[i] < 16
    ensures |r| == |ds| && forall i :: 0 <= i < |ds| ==> r[i] == DigitChar(ds[i], upper)
  {
    seq(|ds|, i requires 0 <= i < |ds| => DigitChar(ds[i], upper))
  }

  /** Reading an unsigned number back. */
  function Parse(s: string, base: nat): Option<nat> {
    if s == [] then Some(0)
    else
      match Parse(s[..|s| - 1], base)
      case None => None
      case Some(v) =>
        match DigitValue(s[|s| - 1])
        case Some(d) => if d < base then Some(v * base + d) else None
        case None => None
  }

  function ParseSigned(s: string, base: nat): Option<int> {
    if s != [] && s[0] == '-' then
      match Parse(s[1..], base)
      case Some(v) => (var i: int := v; Some(-i))
      case None => None
    else
      match Parse(s, base)
      case Some(v) => Some(v)
      case None => None
  }

  lemma DigitReadsBack(d: nat, upper: bool)
    requires d < 16
    ensures DigitValue(DigitChar(d, upper)) == Some(d)
  {
  }

  lemma ParseSnoc(s: string, base: nat, d: nat)
    requires s != [] && Parse(s[..|s| - 1], base).Some? && DigitValue(s[|s| - 1]) == Some(d) && d < base
    ensures Parse(s, base) == Some(Parse(s[..|s| - 1], base).value * base + d)
  {
  }

  lemma {:induction false} ParseRender(ds: seq<nat>, base: nat, upper: bool)
    requires base <= 16 && forall i :: 0 <= i < |ds| ==> ds[i] < base
    ensures Parse(Render(ds, upper), base) == Some(Eval(ds, base))
  {
    if ds != [] {
      var n := |ds| - 1;
      var s := Render(ds, upper);
      ParseRender(ds[..n], base, upper);
      assert s[..n] == Render(ds[..n], upper);
      DigitReadsBack(ds[n], upper);
      ParseSnoc(s, base, ds[n]);
    }
  }

  lemma CaseOfDigits(ds: seq<nat>, upper: bool)
    requires forall i :: 0 <= i < |ds| ==> ds[i] < 16
    ensures var s := Render(ds, upper);
            forall i :: 0 <= i < |s| ==>
              '0' <= s[i] <= '9' || (if upper then 'A' <= s[i] <= 'F' else 'a' <= s[i] <= 'f')
  {
  }

  /** What drt_putn prints, read back, is the number; it has no leading zero, except for zero itself,
      and its letters are of the case asked for. */
  lemma PrintedNumberReadsBack(n: nat, base: nat, upper: bool)
    requires Base(base)
    ensures var s := Render(Digits(n, base), upper);
            && Parse(s, base) == Some(n) && (s[0] == '0' <==> n == 0) && (n == 0 ==> s == "0")
            && forall i :: 0 <= i < |s| ==>
                 '0' <= s[i] <= '9' || (if upper then 'A' <= s[i] <= 'F' else 'a' <= s[i] <= 'f')
  {
    EvalDigits(n, base);
    ParseRender(Digits(n, base), base, upper);
    CaseOfDigits(Digits(n, base), upper);
    if n == 0 {
      assert Render([0], upper) == "0";
    }
  }

  /** What drt_putsn prints. */
  function SignedText(n: int, base: nat): string
    requires Base(base)
  {
    if n < 0 then "-" + Render(Digits(-n, base), false) else Render(Digits(n, base), false)
  }

  lemma SignedTextReadsBack(n: int, base: nat)
    requires Base(base)
    ensures ParseSigned(SignedText(n, base), base) == Some(n)
  {
    PrintedNumberReadsBack(if n < 0 then -n else n, base, false);
    if n < 0 {
      assert SignedText(n, base)[1..] == Render(Digits(-n, base), false);
    }
  }

  // ----- padding -----

  /** The padding loop's variables. */
  datatype Padding = Padding(i: nat, width: nat, printed: nat)

  predicate PaddingGuard(p: Padding) {
    p.i < p.width
  }

  /** The padding loop as drt_putn enters it: `i` counts the digits of `n`. */
  function PaddingAt(n: nat, base: nat, width: nat): Padding
    requires base >= 2
  {
    Padding(|Digits(n, base)|, width, 0)
  }

  /** The padding loop after `k` rounds: each prints, none moves `i` or `width`. */
  function PaddingAfter(p: Padding, k: nat): Padding {
    if k == 0 then p
    else
      var q := PaddingAfter(p, k - 1);
      if PaddingGuard(q) then q.(printed := q.printed + 1) else q
  }

  ghost predicate PaddingEnds(p: Padding) {
    exists k: nat :: !PaddingGuard(PaddingAfter(p, k))
  }

  /** The loop ends at once or never. */
  lemma PaddingEndsAtOnce(p: Padding)
    ensures PaddingEnds(p) <==> !PaddingGuard(p)
  {
    forall k: nat ensures PaddingGuard(PaddingAfter(p, k)) <==> PaddingGuard(p) {
      PaddingRounds(p, k);
    }
    assert PaddingAfter(p, 0) == p;
  }

  /** For every number, base and width the loop ends if and only if the number already has `width`
      digits, that is, if the width is at most 1 or the number at least base^(width - 1). Then it
      prints nothing; otherwise it prints one character in every round, for ever. */
  lemma PaddingEndsIff(n: nat, base: nat, width: nat)
    requires base >= 2
    ensures PaddingEnds(PaddingAt(n, base, width)) <==> width <= |Digits(n, base)|
    ensures PaddingEnds(PaddingAt(n, base, width)) <==> width <= 1 || n >= Pow(base, width - 1)
    ensures var p := PaddingAt(n, base, width);
            forall k: nat :: PaddingAfter(p, k).printed == if PaddingEnds(p) then 0 else k
  {
    var p := PaddingAt(n, base, width);
    PaddingEndsAtOnce(p);
    forall k: nat ensures PaddingAfter(p, k).printed == if PaddingGuard(p) then k else 0 {
      PaddingRounds(p, k);
    }
    if width > 1 {
      DigitCount(n, base, width - 1);
    }
  }

  lemma {:induction false} PaddingRounds(p: Padding, k: nat)
    ensures PaddingAfter(p, k) == p.(printed := p.printed + if PaddingGuard(p) then k else 0)
  {
    if k > 0 { PaddingRounds(p, k - 1); }
  }

  /** Addresses whose topmost hexadecimal digit is not zero. */
  predicate PrintablePointer(p: nat) {
    p >= 0x1000_0000_0000_0000
  }

  /** "%p" asks for 16 hexadecimal digits, so printing a pointer ends if and only if its topmost
      digit is not zero: for null, or any other address below 2^60, it never ends. */
  lemma PointerPrintingEndsIff(p: nat)
    ensures PaddingEnds(PaddingAt(p, 16, 2 * WORD_SIZE)) <==> PrintablePointer(p)
  {
    PaddingEndsIff(p, 16, 16);
    assert Pow(16, 5) == 0x10_0000;
    PowAdd(16, 5, 5);
    PowAdd(16, 10, 5);
  }

  // ----- the printing routines as they are written -----

  /** One round's division: the last of the digits, and what is left to print. */
  method SplitLastDigit(m: nat, base: nat, ghost ds: seq<nat>) returns (q: nat, r: nat)
    requires base >= 2 && Digits(m, base) == ds
    ensures r < base && ds != [] && r == ds[|ds| - 1] && (q == 0 ==> |ds| == 1)
    ensures q > 0 ==> q < m && Digits(q, base) == ds[..|ds| - 1]
  {
    DigitsStep(m, base);
    r := m % base;
    q := m / base;
  }

  /** The buffer holds the last `count` characters of the text, backwards. */
  ghost predicate Stored(buf: array<char>, text: string, count: nat)
    reads buf
  {
    count <= |text| <= buf.Length && forall k :: 0 <= k < count ==> buf[k] == text[|text| - 1 - k]
  }

  method Store(buf: array<char>, i: nat, c: char, ghost text: string)
    requires i < |text| && Stored(buf, text, i) && c == text[|text| - 1 - i]
    modifies buf
    ensures Stored(buf, text, i + 1)
  {
    buf[i] := c;
  }

  /** The first loop of drt_putn: the digits, least significant first, and their number. */
  method FillBuffer(n: nat, base: nat, upper: bool, buf: array<char>) returns (i: nat)
    requires 2 <= base <= 16 && |Digits(n, base)| <= buf.Length
    modifies buf
    ensures i == |Digits(n, base)| && Stored(buf, Render(Digits(n, base), upper), i)
  {
    var digits := DigitTable(upper);
    ghost var ds := Digits(n, base);
    ghost var text := Render(ds, upper);
    var m: nat := n;
    i := 0;
    while true
      invariant i < |ds| && Digits(m, base) == ds[..|ds| - i]
      invariant Stored(buf, text, i)
      decreases m
    {
      var q, r := SplitLastDigit(m, base, ds[..|ds| - i]);
      Store(buf, i, digits[r], text);
      i := i + 1;
      m := q;
      if m == 0 {
        break;
      }
    }
  }

  /** The last loop of drt_putn: the buffer backwards. */
  method Drain(buf: array<char>, count: nat, ghost text: string) returns (out: string)
    requires count == |text| && Stored(buf, text, count)
    ensures out == text
  {
    var i := count;
    out := "";
    while i > 0
      invariant 0 <= i <= count && out == text[..count - i]
    {
      i := i - 1;
      out := out + [buf[i]];
    }
  }

  function Repeat(c: char, k: nat): string {
    seq(k, _ => c)
  }

  /** The padding loop, observed for at most `patience` rounds. */
  method Pad(p: Padding, pad: char, patience: nat) returns (out: string, ended: bool)
    ensures ended <==> PaddingEnds(p)
    ensures out == if ended then "" else Repeat(pad, patience)
  {
    var q := p;
    out := "";
    while PaddingGuard(q)
      invariant q == PaddingAfter(p, |out|)
      invariant out == Repeat(pad, |out|) && |out| <= patience && (out != "" ==> PaddingGuard(p))
      decreases patience - |out|
    {
      PaddingRounds(p, |out|);
      if |out| == patience {
        PaddingEndsAtOnce(p);
        return out, false;
      }
      out := out + [pad];
      q := q.(printed := q.printed + 1);
    }
    PaddingEndsAtOnce(p);
    ended := true;
  }

  /** drt_putn, observed for at most `patience` rounds of its padding loop: what is printed by then
      and whether the call returns. */
  method PutN(n: nat, base: nat, width: nat, pad: char, upper: bool, patience: nat)
    returns (out: string, returned: bool)
    requires Base(base) && n < ADDRESS_SPACE
    ensures returned <==> PaddingEnds(PaddingAt(n, base, width))
    ensures out == if returned then Render(Digits(n, base), upper) else Repeat(pad, patience)
    ensures returned ==> 1 <= |out| <= 20
  {
    var buf := new char[BUFFER];
    DigitsFit(n, base);
    var i := FillBuffer(n, base, upper, buf);
    out, returned := Pad(Padding(i, width, 0), pad, patience);
    if returned {
      out := Drain(buf, i, Render(Digits(n, base), upper));
    }
  }

  /** "%p": "0x" and 16 hexadecimal digits */
  method PutPointer(p: Address, patience: nat) returns (out: string, returned: bool)
    ensures returned <==> PrintablePointer(p)
    ensures out == "0x" + if returned then Render(Digits(p, 16), false) else Repeat('0', patience)
  {
    PointerPrintingEndsIff(p);
    out, returned := PutN(p, 16, 2 * WORD_SIZE, '0', false, patience);
    out := "0x" + out;
  }

  /** The width drt_putsn hands on: the sign takes one column. */
  function DigitWidth(n: int, width: nat): nat {
    if n < 0 && width > 0 then width - 1 else width
  }

  function Magnitude(n: int): nat {
    if n < 0 then -n else n
  }

  type Signed64 = i: int | -0x8000_0000_0000_0000 <= i < 0x8000_0000_0000_0000

  /** Negation in 64 bits; that of the minimum wraps to itself. */
  function Negate64(n: Signed64): Signed64 {
    if n == -0x8000_0000_0000_0000 then n else -n
  }

  /** Conversion to an unsigned number. */
  function Unsigned64(n: Signed64): (u: nat)
    ensures u < ADDRESS_SPACE
  {
    if n < 0 then n + ADDRESS_SPACE else n
  }

  /** With the sign's column taken off the width, the padding loop ends if and only if the signed text
      fills the width. */
  lemma SignedPadding(n: int, base: nat, width: nat)
    requires Base(base)
    ensures PaddingEnds(PaddingAt(Magnitude(n), base, DigitWidth(n, width))) <==> width <= |SignedText(n, base)|
  {
    PaddingEndsIff(Magnitude(n), base, DigitWidth(n, width));
  }

  /** drt_putsn */
  method PutSN(n: Signed64, base: nat, width: nat, pad: char, patience: nat) returns (out: string, returned: bool)
    requires Base(base)
    ensures returned <==> width <= |SignedText(n, base)|
    ensures out == if returned then SignedText(n, base) else (if n < 0 then "-" else "") + Repeat(pad, patience)
    ensures returned ==> |out| <= 21
  {
    SignedPadding(n, base, width);
    var m, w, sign := n, width, "";
    if n < 0 {
      sign := "-";
      m := Negate64(n);
      if w > 0 { w := w - 1; }
    }
    var body;
    body, returned := PutN(Unsigned64(m), base, w, pad, false, patience);
    out := sign + body;
  }
}
