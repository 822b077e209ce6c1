/** printNumber(n, base) (TTVout.cpp:711-729): the digits of n in base, least significant
    first into a local buffer, then printed from the most significant one. The characters
    go to print(char), which is not part of this model: the method returns them. */
module Numbers {
  import opened Bits

  /** unsigned long on the 32-bit target. */
  type U32 = x: int | 0 <= x < 0x1_0000_0000

  /** 2 to the k. */
  function Pow2(k: nat): (p: nat)
    ensures p >= 1
  {
    if k == 0 then 1 else 2 * Pow2(k - 1)
  }

  /** The digits the first loop stores: n % base, then the digits of n / base, until n is 0. */
  function LowDigits(n: nat, base: nat): (ds: seq<nat>)
    requires base >= 2
    ensures forall k :: 0 <= k < |ds| ==> ds[k] < base
    decreases n
  {
    if n == 0 then [] else [n % base] + LowDigits(n / base, base)
  }

  /** The number a least-significant-first digit list stands for. */
  function ValueLow(ds: seq<nat>, base: nat): nat {
    if ds == [] then 0 else ds[0] + base * ValueLow(ds[1..], base)
  }

  /** The character the second loop prints for digit d: '0' + d below 10, else 'A' + d - 10,
      cast to an 8-bit char. */
  function Glyph(d: nat): (c: U8)
    ensures d < 10 ==> c == 48 + d
    ensures 10 <= d < 36 ==> 65 <= c < 91 && c == 55 + d
  {
    if d < 10 then 48 + d else ToU8(55 + d)
  }

  /** The digit a character '0'..'9' or 'A'..'Z' stands for. */
  function GlyphValue(c: U8): nat {
    if 48 <= c < 58 then c - 48 else if 65 <= c < 91 then c - 55 else 0
  }

  /** The characters printed for a digit buffer: from the last digit stored to the first. */
  function Emitted(ds: seq<nat>): (t: seq<U8>)
    ensures |t| == |ds|
  {
    if ds == [] then [] else Emitted(ds[1..]) + [Glyph(ds[0])]
  }

  /** Everything printNumber prints: "0" for 0. */
  function Printed(n: U32, base: U8): seq<U8>
    requires base >= 2
  {
    if n == 0 then [Glyph(0)] else Emitted(LowDigits(n, base))
  }

  /** Reading printed text back in base, most significant character first. */
  function Read(t: seq<U8>, base: nat): nat {
    if t == [] then 0 else Read(t[..|t| - 1], base) * base + GlyphValue(t[|t| - 1])
  }

  /** The stored digits stand for n. */
  lemma {:induction false} LowDigitsValue(n: nat, base: nat)
    requires base >= 2
    ensures ValueLow(LowDigits(n, base), base) == n
    decreases n
  {
    if n > 0 {
      var ds := LowDigits(n, base);
      var q, d := n / base, n % base;
      StoreStep(n, base);
      assert ds[0] == d && ds[1..] == LowDigits(q, base);
      LowDigitsValue(q, base);
      assert ValueLow(ds, base) == d + base * q;
      DivMod(n, base);
    }
  }

  /** The last digit stored, printed first, is not 0: no leading zeros. */
  lemma {:induction false} LowDigitsTop(n: nat, base: nat)
    requires base >= 2 && n > 0
    ensures var ds := LowDigits(n, base); |ds| > 0 && ds[|ds| - 1] > 0
    decreases n
  {
    if n / base > 0 {
      LowDigitsTop(n / base, base);
    }
  }

  /** Below 2^k there are at most k digits: the 32-byte buffer is enough. */
  lemma {:induction false} LowDigitsFit(n: nat, base: nat, k: nat)
    requires base >= 2 && n < Pow2(k)
    ensures |LowDigits(n, base)| <= k
    decreases n
  {
    if n > 0 {
      assert k > 0;
      assert n / base <= n / 2;
      LowDigitsFit(n / base, base, k - 1);
    }
  }

  /** Every character read back is its digit, for bases up to 36. */
  lemma {:induction false} ReadEmitted(ds: seq<nat>, base: nat)
    requires forall k :: 0 <= k < |ds| ==> ds[k] < base <= 36
    ensures Read(Emitted(ds), base) == ValueLow(ds, base)
    decreases |ds|
  {
    if ds != [] {
      var t := Emitted(ds);
      var v := ValueLow(ds[1..], base);
      assert t[..|t| - 1] == Emitted(ds[1..]);
      ReadEmitted(ds[1..], base);
      assert Read(t, base) == v * base + ds[0];
      assert ValueLow(ds, base) == ds[0] + base * v;
    }
  }

  /** printNumber's text, read back in base, is n, for bases 2 to 36; it has no leading
      zero and at most 32 characters. */
  lemma ReadBack(n: U32, base: U8)
    requires 2 <= base <= 36
    ensures Read(Printed(n, base), base) == n
    ensures |Printed(n, base)| <= 32
    ensures n > 0 ==> Printed(n, base)[0] != Glyph(0)
  {
    if n > 0 {
      var ds := LowDigits(n, base);
      ReadEmitted(ds, base);
      LowDigitsValue(n, base);
      LowDigitsTop(n, base);
      EmittedFirst(ds);
      assert Pow2(32) == 0x1_0000_0000 by { Pow2Of32(); }
      LowDigitsFit(n, base, 32);
    } else {
      assert Read([Glyph(0)], base) == Read([], base) * base + 0;
    }
  }

  lemma EmittedFirst(ds: seq<nat>)
    requires |ds| > 0
    ensures Emitted(ds)[0] == Glyph(ds[|ds| - 1])
    decreases |ds|
  {
    if |ds| > 1 {
      EmittedFirst(ds[1..]);
    }
  }

  lemma Pow2Of32()
    ensures Pow2(32) == 0x1_0000_0000
  {
    assert Pow2(8) == 0x100;
    assert Pow2(16) == 0x1_0000;
    assert Pow2(24) == 0x100_0000;
  }

  /** Splitting off one more digit keeps the list of digits still to come. */
  lemma StoreStep(n: nat, base: nat)
    requires base >= 2 && n > 0
    ensures n / base < n
    ensures LowDigits(n, base) == [n % base] + LowDigits(n / base, base)
  {
    var q := n / base;
    assert q * base + n % base == n;
    MulMonoNat(2, base, q);
  }

  /** printNumber(n, base): the digits into buf[0 .. i - 1], then buf[i - 1] down to
      buf[0] printed. base must be at least 2 (0 divides by zero, 1 never ends). */
  method PrintNumber(n: U32, base: U8) returns (out: seq<U8>)
    requires base >= 2
    ensures out == Printed(n, base)
  {
    if n == 0 {
      out := [48];
      return;
    }
    var buf, i := StoreDigits(n, base);
    out := EmitDigits(buf, i);
  }

  /** The first loop (TTVout.cpp:720-723): buf[i++] = n % base; n /= base; while n > 0. */
  method StoreDigits(n: U32, base: U8) returns (buf: array<nat>, i: nat)
    requires base >= 2
    ensures fresh(buf) && buf.Length == 32 && i <= 32
    ensures buf[..i] == LowDigits(n, base)
  {
    buf := new nat[32];
    i := 0;
    var m: nat := n;
    Pow2Of32();
    LowDigitsFit(n, base, 32);
    while m > 0
      invariant 0 <= i <= 32
      invariant buf[..i] + LowDigits(m, base) == LowDigits(n, base)
      decreases m
    {
      StoreStep(m, base);
      buf[i] := m % base;
      assert buf[..i + 1] == buf[..i] + [m % base];
      m := m / base;
      i := i + 1;
    }
  }

  /** The second loop (TTVout.cpp:725-728): buf[i - 1] printed as a digit or a letter, for
      i from count down to 1. */
  method EmitDigits(buf: array<nat>, count: nat) returns (out: seq<U8>)
    requires count <= buf.Length
    ensures out == Emitted(buf[..count])
  {
    ghost var ds := buf[..count];
    var i := count;
    out := [];
    while i > 0
      invariant 0 <= i <= |ds|
      invariant out == Emitted(ds[i..])
      decreases i
    {
      assert ds[i - 1..][1..] == ds[i..];
      out := out + [Glyph(buf[i - 1])];
      i := i - 1;
    }
    assert ds[0..] == ds;
  }

  lemma DivMod(n: nat, base: nat)
    requires base >= 2
    ensures base * (n / base) + n % base == n
  {
  }

  lemma MulMonoNat(a: nat, b: nat, p: nat)
    requires a <= b
    ensures a * p <= b * p
  {
  }
}
