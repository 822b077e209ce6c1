/** Fixed-width C integers and the bit arithmetic of one MSB-first byte.
    Pixel column j (0..7) of a byte is the bit selected by 0x80 >> j. */
module Bits {

  /** The C integer types the engine's parameters and locals use. */
  type U8 = x: int | 0 <= x < 0x100
  type I8 = x: int | -0x80 <= x < 0x80
  type U16 = x: int | 0 <= x < 0x1_0000
  type I16 = x: int | -0x8000 <= x < 0x8000

  /** Conversion of an int to uint8_t (keeps the low 8 bits). */
  function ToU8(v: int): (r: U8)
    ensures (r - v) % 0x100 == 0
    ensures 0 <= v < 0x100 ==> r == v
  {
    v % 0x100
  }

  /** Conversion of an int to int16_t (two's complement wrap-around). */
  function ToI16(v: int): (r: I16)
    ensures (r - v) % 0x1_0000 == 0
    ensures -0x8000 <= v < 0x8000 ==> r == v
  {
    var m := v % 0x1_0000;
    if m < 0x8000 then m else m - 0x1_0000
  }

  /** C's `/` for a positive divisor: truncates toward zero. */
  function Quot(a: int, b: int): (q: int)
    requires b > 0
    ensures a >= 0 ==> q == a / b
    ensures a < 0 ==> q == -((-a) / b)
  {
    if a >= 0 then a / b else -((-a) / b)
  }

  /** The mask of pixel column j of a byte (0x80 >> j, see BitShr). */
  function Bit(j: int): bv8
    requires 0 <= j < 8
  {
    if j == 0 then 0x80 else if j == 1 then 0x40 else if j == 2 then 0x20 else if j == 3 then 0x10
    else if j == 4 then 0x08 else if j == 5 then 0x04 else if j == 6 then 0x02 else 0x01
  }

  lemma BitShr(j: int)
    requires 0 <= j < 8
    ensures Bit(j) == (0x80 as bv8) >> j
  {
  }

  /** Pixel column j of byte b is lit. */
  predicate Lit(b: bv8, j: int)
    requires 0 <= j < 8
  {
    b & Bit(j) != 0
  }

  /** b << n on a byte: the columns move n places towards column 0 and the bits pushed
      past the byte are dropped, as storing C's int result in a uint8_t does. Defined
      as n shifts by one. */
  function Shl(b: bv8, n: nat): bv8
    decreases n
  {
    if n == 0 then b else Shl(b << 1, n - 1)
  }

  /** b >> n on a byte, as n shifts by one. */
  function Shr(b: bv8, n: nat): bv8
    decreases n
  {
    if n == 0 then b else Shr(b >> 1, n - 1)
  }

  /** Shl is the shift operator. */
  lemma {:induction false} ShlIs(b: bv8, n: nat)
    requires n <= 8
    ensures Shl(b, n) == b << n
    decreases n
  {
    if n > 0 {
      calc {
        Shl(b, n);
        Shl(b << 1, n - 1);
        { ShlIs(b << 1, n - 1); }
        (b << 1) << (n - 1);
        { ShiftOne(b, n); }
        b << n;
      }
    }
  }

  /** Shr is the shift operator. */
  lemma {:induction false} ShrIs(b: bv8, n: nat)
    requires n <= 8
    ensures Shr(b, n) == b >> n
    decreases n
  {
    if n > 0 {
      calc {
        Shr(b, n);
        Shr(b >> 1, n - 1);
        { ShrIs(b >> 1, n - 1); }
        (b >> 1) >> (n - 1);
        { ShiftOne(b, n); }
        b >> n;
      }
    }
  }

  /** A shift by n is a shift by one followed by a shift by n - 1. */
  lemma ShiftOne(b: bv8, n: int)
    requires 1 <= n <= 8
    ensures (b << 1) << (n - 1) == b << n && (b >> 1) >> (n - 1) == b >> n
  {
  }

  /** 0xff >> n as C computes it on an int: 0 once n reaches 8. */
  function Ones(n: int): bv8
    requires n >= 0
  {
    if n >= 8 then 0 else Shr(0xff, n)
  }

  lemma BitLit(i: int, j: int)
    requires 0 <= i < 8 && 0 <= j < 8
    ensures Lit(Bit(i), j) <==> i == j
  {
  }

  /** 0xff >> n keeps the columns from n on. */
  lemma OnesLit(n: int, j: int)
    requires n >= 0 && 0 <= j < 8
    ensures Lit(Ones(n), j) <==> n <= j
  {
    if n < 8 {
      ShrLit(0xff, n, j);
      if j >= n {
        ZeroLit(j - n);
      }
    }
  }

  /** ~(0xff >> n) keeps the columns before n. */
  lemma NotOnesLit(n: int, j: int)
    requires 0 <= n <= 8 && 0 <= j < 8
    ensures Lit(!Ones(n), j) <==> j < n
  {
    NotLit(Ones(n), j);
    OnesLit(n, j);
  }

  lemma ShlOneLit(b: bv8, j: int)
    requires 0 <= j < 8
    ensures Lit(b << 1, j) <==> (j + 1 < 8 && Lit(b, j + 1))
  {
  }

  lemma ShrOneLit(b: bv8, j: int)
    requires 0 <= j < 8
    ensures Lit(b >> 1, j) <==> (j >= 1 && Lit(b, j - 1))
  {
  }

  /** b << n moves column j + n to column j. */
  lemma {:induction false} ShlLit(b: bv8, n: nat, j: int)
    requires 0 <= j < 8
    ensures Lit(Shl(b, n), j) <==> (j + n < 8 && Lit(b, j + n))
    decreases n
  {
    if n > 0 {
      ShlLit(b << 1, n - 1, j);
      if j + n - 1 < 8 {
        ShlOneLit(b, j + n - 1);
      }
    }
  }

  /** b >> n moves column j - n to column j. */
  lemma {:induction false} ShrLit(b: bv8, n: nat, j: int)
    requires 0 <= j < 8
    ensures Lit(Shr(b, n), j) <==> (j >= n && Lit(b, j - n))
    decreases n
  {
    if n > 0 {
      ShrLit(b >> 1, n - 1, j);
      if j >= n - 1 {
        ShrOneLit(b, j - n + 1);
      }
    }
  }

  /** Shl(a, p) | Shr(c, q): a's columns from p on, and c's columns moved q places on. */
  lemma ShlOrShrLit(a: bv8, c: bv8, p: nat, q: nat, j: int)
    requires 0 <= j < 8
    ensures Lit(Shl(a, p) | Shr(c, q), j) <==>
            (j + p < 8 && Lit(a, j + p)) || (j >= q && Lit(c, j - q))
  {
    OrLit(Shl(a, p), Shr(c, q), j);
    ShlLit(a, p, j);
    ShrLit(c, q, j);
  }

  /** Shr(a, q) | Shl(c, p): the mirror image of ShlOrShrLit. */
  lemma ShrOrShlLit(a: bv8, c: bv8, q: nat, p: nat, j: int)
    requires 0 <= j < 8
    ensures Lit(Shr(a, q) | Shl(c, p), j) <==>
            (j >= q && Lit(a, j - q)) || (j + p < 8 && Lit(c, j + p))
  {
    OrLit(Shr(a, q), Shl(c, p), j);
    ShrLit(a, q, j);
    ShlLit(c, p, j);
  }

  /** The byte a shift by sh bits across a byte boundary builds: Shl(a, sh) | Shr(b, 8 - sh)
      holds a's columns from sh on, then b's first sh columns. */
  lemma CarryLeftLit(a: bv8, b: bv8, sh: int, j: int)
    requires 0 <= sh < 8 && 0 <= j < 8
    ensures Lit(Shl(a, sh) | Shr(b, 8 - sh), j) <==>
            if j + sh < 8 then Lit(a, j + sh) else Lit(b, j + sh - 8)
  {
    ShlOrShrLit(a, b, sh, 8 - sh, j);
  }

  /** Shr(a, sh) | Shl(b, 8 - sh) holds b's last sh columns, then a's columns up to 8 - sh. */
  lemma CarryRightLit(a: bv8, b: bv8, sh: int, j: int)
    requires 0 <= sh < 8 && 0 <= j < 8
    ensures Lit(Shr(a, sh) | Shl(b, 8 - sh), j) <==>
            if j >= sh then Lit(a, j - sh) else Lit(b, j - sh + 8)
  {
    ShrOrShlLit(a, b, sh, 8 - sh, j);
  }

  lemma AndOrLit(a: bv8, k: bv8, c: bv8, j: int)
    requires 0 <= j < 8
    ensures Lit((a & k) | c, j) <==> (Lit(a, j) && Lit(k, j)) || Lit(c, j)
  {
    OrLit(a & k, c, j);
    AndLit(a, k, j);
  }

  lemma OrAndLit(v: bv8, a: bv8, k: bv8, j: int)
    requires 0 <= j < 8
    ensures Lit(v | (a & k), j) <==> Lit(v, j) || (Lit(a, j) && Lit(k, j))
  {
    OrLit(v, a & k, j);
    AndLit(a, k, j);
  }

  lemma OrLit(a: bv8, b: bv8, j: int)
    requires 0 <= j < 8
    ensures Lit(a | b, j) <==> Lit(a, j) || Lit(b, j)
  {
  }

  lemma AndLit(a: bv8, b: bv8, j: int)
    requires 0 <= j < 8
    ensures Lit(a & b, j) <==> Lit(a, j) && Lit(b, j)
  {
  }

  lemma XorLit(a: bv8, b: bv8, j: int)
    requires 0 <= j < 8
    ensures Lit(a ^ b, j) <==> Lit(a, j) != Lit(b, j)
  {
    var m := Bit(j);
    assert (a ^ b) & m == (a & m) ^ (b & m);
    assert m == 0x80 || m == 0x40 || m == 0x20 || m == 0x10 || m == 0x08 || m == 0x04 || m == 0x02 || m == 0x01;
  }

  lemma NotLit(a: bv8, j: int)
    requires 0 <= j < 8
    ensures Lit(!a, j) <==> !Lit(a, j)
  {
  }

  lemma ZeroLit(j: int)
    requires 0 <= j < 8
    ensures !Lit(0, j) && Lit(0xff, j)
  {
  }

  /** A byte is determined by its eight pixel columns. */
  lemma ByteExt(a: bv8, b: bv8)
    requires forall j :: 0 <= j < 8 ==> (Lit(a, j) <==> Lit(b, j))
    ensures a == b
  {
    assert Lit(a, 0) == Lit(b, 0) && Lit(a, 1) == Lit(b, 1);
    assert Lit(a, 2) == Lit(b, 2) && Lit(a, 3) == Lit(b, 3);
    assert Lit(a, 4) == Lit(b, 4) && Lit(a, 5) == Lit(b, 5);
    assert Lit(a, 6) == Lit(b, 6) && Lit(a, 7) == Lit(b, 7);
  }
}
