/** Fixed-width words as bounded integers, and C's bitwise operators on them.

    Words are integers and not Dafny bit-vectors, because the code mixes them with pointer
    differences and array indices.  `And`, `Or`, `Shl` and `Shr` are C's `&`, `|`, `<<` and `>>` on
    unsigned operands before truncation to a width; the lemmas turn a mask into the bit fields that
    it selects. */
module Bits {

  type u8 = x: int | 0 <= x < 0x100
  type i32 = x: int | -0x8000_0000 <= x < 0x8000_0000
  type u32 = x: int | 0 <= x < 0x1_0000_0000
  type u64 = x: int | 0 <= x < 0x1_0000_0000_0000_0000

  const TWO32: int := 0x1_0000_0000
  const TWO64: int := 0x1_0000_0000_0000_0000

  function Pow2(k: nat): (r: nat)
    ensures r > 0
  {
    if k == 0 then 1 else 2 * Pow2(k - 1)
  }

  function And(x: nat, y: nat): nat {
    if x == 0 || y == 0 then 0
    else 2 * And(x / 2, y / 2) + if x % 2 == 1 && y % 2 == 1 then 1 else 0
  }

  function Or(x: nat, y: nat): nat {
    if x == 0 then y else if y == 0 then x
    else 2 * Or(x / 2, y / 2) + if x % 2 == 1 || y % 2 == 1 then 1 else 0
  }

  function Shl(x: nat, k: nat): nat {
    if k == 0 then x else 2 * Shl(x, k - 1)
  }

  function Shr(x: nat, k: nat): nat {
    if k == 0 then x else Shr(x / 2, k - 1)
  }

  /** `>>` of a signed value: division rounding down. */
  function Asr(x: int, k: nat): int
    decreases k
  {
    if k == 0 then x else Asr(x / 2, k - 1)
  }

  /** The low `k` bits of `x`. */
  function Low(x: nat, k: nat): nat {
    if k == 0 then 0 else 2 * Low(x / 2, k - 1) + x % 2
  }

  /** The two's complement reading of a `k`-bit field. */
  function SignExtend(x: nat, k: nat): int
    requires 0 < k
  {
    if x < Pow2(k - 1) then x else x - Pow2(k)
  }

  // The shifts and the truncation, as multiplication, division and remainder.

  lemma {:induction false} ShlIsMul(x: nat, k: nat)
    ensures Shl(x, k) == x * Pow2(k)
  {
    if k > 0 {
      ShlIsMul(x, k - 1);
    }
  }

  lemma {:induction false} ShrIsDiv(x: nat, k: nat)
    ensures Shr(x, k) == x / Pow2(k)
  {
    if k > 0 {
      ShrIsDiv(x / 2, k - 1);
      DivModTwice(x, Pow2(k - 1));
    }
  }

  lemma {:induction false} LowIsMod(x: nat, k: nat)
    ensures Low(x, k) == x % Pow2(k)
  {
    if k > 0 {
      LowIsMod(x / 2, k - 1);
      DivModTwice(x, Pow2(k - 1));
    }
  }

  lemma DivModTwice(x: nat, p: nat)
    requires p > 0
    ensures x / (2 * p) == x / 2 / p && x % (2 * p) == 2 * (x / 2 % p) + x % 2
  {
    var q, r := x / 2 / p, 2 * (x / 2 % p) + x % 2;
    assert x / 2 == q * p + x / 2 % p;
    assert x == q * (2 * p) + r;
    DivModUnique(x, 2 * p, q, r);
  }

  lemma DivModUnique(x: int, m: nat, q: int, r: int)
    requires 0 <= r < m && x == q * m + r
    ensures x / m == q && x % m == r
  {
    var d := x / m - q;
    assert d * m == r - x % m by {
      assert x == m * (x / m) + x % m;
      assert d * m == (x / m) * m - q * m;
    }
  }

  /** Splitting at a*b and then at a gives the same parts as splitting at a and then at b. */
  lemma DivModSplit(x: nat, a: nat, b: nat)
    requires a > 0 && b > 0
    ensures a * b > 0
    ensures x % (a * b) / a == x / a % b && x % (a * b) % a == x % a && x / (a * b) == x / a / b
  {
    var q, m, r := x / a / b, x / a % b, x % a;
    assert x == q * (a * b) + (m * a + r) by { ThreeParts(x, a, b, q, m, r); }
    TwoParts(a, b, m, r);
    DivModUnique(x, a * b, q, m * a + r);
  }

  lemma ThreeParts(x: nat, a: nat, b: nat, q: int, m: int, r: int)
    requires a > 0 && b > 0 && q == x / a / b && m == x / a % b && r == x % a
    ensures x == q * (a * b) + (m * a + r)
  {
    var y := x / a;
    assert x == y * a + r && y == q * b + m;
    MulRearrange(q, b, m, a);
  }

  lemma TwoParts(a: nat, b: nat, m: nat, r: nat)
    requires m < b && r < a
    ensures 0 <= m * a + r < a * b && (m * a + r) / a == m && (m * a + r) % a == r
  {
    MulMono(m + 1, b, a);
    DivModUnique(m * a + r, a, m, r);
  }

  lemma SmallMod(x: nat, m: nat)
    requires x < m
    ensures x % m == x
  {
  }

  // Masks.

  lemma AndStep(x: nat, y: nat)
    ensures And(x, y) == 2 * And(x / 2, y / 2) + if x % 2 == 1 && y % 2 == 1 then 1 else 0
  {
    if x == 0 || y == 0 {
      assert And(x / 2, y / 2) == 0;
    }
  }

  /** One more bit at the low end of both. */
  lemma AndDouble(x: nat, y: nat, h: nat, a: nat, g: nat, b: nat)
    requires a < 2 && b < 2 && x == 2 * h + a && y == 2 * g + b
    ensures And(x, y) == 2 * And(h, g) + if a == 1 && b == 1 then 1 else 0
  {
    Halves(h, a);
    Halves(g, b);
    AndStep(x, y);
  }

  lemma Halves(h: nat, b: nat)
    requires b < 2
    ensures (2 * h + b) / 2 == h && (2 * h + b) % 2 == b
  {
  }

  /** A mask of `k` ones keeps the low `k` bits. */
  lemma {:induction false} AndOnes(x: nat, k: nat)
    ensures And(x, Pow2(k) - 1) == Low(x, k)
  {
    if k > 0 {
      AndOnes(x / 2, k - 1);
      AndDouble(x, Pow2(k) - 1, x / 2, x % 2, Pow2(k - 1) - 1, 1);
    }
  }

  /** The part of a mask above bit `k` and the part below act separately. */
  lemma {:induction false} AndSplit(x: nat, hi: nat, lo: nat, k: nat)
    requires lo < Pow2(k)
    ensures And(x, Shl(hi, k) + lo) == Shl(And(Shr(x, k), hi), k) + And(Low(x, k), lo)
  {
    if k == 0 {
      assert lo == 0 && Shl(hi, k) + lo == hi && And(Low(x, k), lo) == 0;
    } else {
      AndSplit(x / 2, hi, lo / 2, k - 1);
      ShlMasked(x, hi, k);
      AndSplitBit(x, Shl(hi, k) + lo, Low(x, k), lo, Shl(hi, k - 1), Low(x / 2, k - 1),
                  Shl(And(Shr(x / 2, k - 1), hi), k - 1), Shl(And(Shr(x, k), hi), k));
    }
  }

  lemma ShlMasked(x: nat, hi: nat, k: nat)
    requires k > 0
    ensures Shl(And(Shr(x, k), hi), k) == 2 * Shl(And(Shr(x / 2, k - 1), hi), k - 1)
  {
  }

  lemma AndSplitBit(x: nat, y: nat, z: nat, lo: nat, g: nat, l: nat, a: nat, b: nat)
    requires And(x / 2, g + lo / 2) == a + And(l, lo / 2)
    requires y == 2 * g + lo && z == 2 * l + x % 2 && b == 2 * a
    ensures And(x, y) == b + And(z, lo)
  {
    AndDouble(x, y, x / 2, x % 2, g + lo / 2, lo % 2);
    AndDouble(z, lo, l, x % 2, lo / 2, lo % 2);
  }

  /** `|` of two values without a common bit is their sum. */
  lemma {:induction false} OrDisjoint(hi: nat, lo: nat, k: nat)
    requires lo < Pow2(k)
    ensures Or(Shl(hi, k), lo) == Shl(hi, k) + lo
  {
    if k > 0 {
      OrDisjoint(hi, lo / 2, k - 1);
    }
  }

  /** Setting the same bits twice is setting them once. */
  lemma {:induction false} OrAgain(x: nat, y: nat)
    ensures Or(Or(x, y), y) == Or(x, y)
  {
    if x == 0 {
      OrSelf(y);
    } else if y != 0 {
      OrAgain(x / 2, y / 2);
      assert Or(x, y) / 2 == Or(x / 2, y / 2);
    }
  }

  lemma {:induction false} OrSelf(y: nat)
    ensures Or(y, y) == y
  {
    if y != 0 {
      OrSelf(y / 2);
    }
  }

  lemma {:induction false} OrComm(x: nat, y: nat)
    ensures Or(x, y) == Or(y, x)
  {
    if x != 0 && y != 0 {
      OrComm(x / 2, y / 2);
    }
  }

  /** One block of `len` ones at bit `lo` of a mask, with the mask's lower bits `rest`; `p` and `q`
      are 2^lo and 2^len, so that a caller can give them as literals. */
  lemma MaskBlock(x: nat, mask: nat, lo: nat, len: nat, rest: nat, p: nat, q: nat)
    requires p == Pow2(lo) && q == Pow2(len) && rest < p && mask == (q - 1) * p + rest
    ensures And(x, mask) == x / p % q * p + And(x % p, rest)
  {
    ShlIsMul(q - 1, lo);
    AndSplit(x, q - 1, rest, lo);
    ShrIsDiv(x, lo);
    LowIsMod(x, lo);
    AndOnes(Shr(x, lo), len);
    LowIsMod(Shr(x, lo), len);
    ShlIsMul(And(Shr(x, lo), q - 1), lo);
  }

  /** The last block of a mask, at bit 0. */
  lemma MaskEnd(x: nat, mask: nat, len: nat, q: nat)
    requires q == Pow2(len) && mask == q - 1
    ensures And(x, mask) == x % q
  {
    AndOnes(x, len);
    LowIsMod(x, len);
  }

  /** C's conversion of an unsigned value to the signed type of `width` bits. */
  function ToSigned(x: nat, width: nat): int
    requires width > 0
  {
    SignExtend(Low(x, width), width)
  }

  lemma {:induction false} AsrIsDiv(x: int, k: nat)
    ensures Asr(x, k) == x / Pow2(k)
    decreases k
  {
    if k > 0 {
      AsrIsDiv(x / 2, k - 1);
      DivTwice(x, Pow2(k - 1));
    }
  }

  lemma DivTwice(x: int, p: nat)
    requires p > 0
    ensures x / (2 * p) == x / 2 / p
  {
    var q, r := x / 2 / p, 2 * (x / 2 % p) + x % 2;
    assert x / 2 == q * p + x / 2 % p;
    assert x == q * (2 * p) + r;
    DivModUnique(x, 2 * p, q, r);
  }

  lemma TwiceProduct(p: nat, q: nat)
    ensures 2 * (p * q) == (2 * p) * q
  {
  }

  lemma {:induction false} Pow2Add(a: nat, b: nat)
    ensures Pow2(a + b) == Pow2(a) * Pow2(b)
  {
    if a > 0 {
      Pow2Add(a - 1, b);
      TwiceProduct(Pow2(a - 1), Pow2(b));
    }
  }

  /** Shifting a value to the top of a word and arithmetically back down again sign-extends its low
      bits. */
  lemma ShiftUpDown(val: nat, bits: nat, width: nat)
    requires 0 < bits <= width
    ensures Asr(ToSigned(Shl(val, width - bits), width), width - bits) == SignExtend(Low(val, bits), bits)
  {
    var c, m := Pow2(width - bits), Pow2(bits);
    ShlIsMul(val, width - bits);
    Pow2Add(width - bits, bits);
    ModScale(val, m, c);
    LowIsMod(val, bits);
    LowIsMod(Shl(val, width - bits), width);
    SignExtendScale(val % m, bits, width);
    AsrIsDiv(SignExtend(val % m * c, width), width - bits);
  }

  lemma ModScale(v: nat, m: nat, c: nat)
    requires m > 0 && c > 0
    ensures (v * c) % (c * m) == (v % m) * c
  {
    var h, r := v / m, v % m;
    assert v * c == h * (c * m) + r * c by {
      assert v == h * m + r;
      MulRearrange(h, m, r, c);
    }
    ScaleBelow(r, m, c);
    DivModUnique(v * c, c * m, h, r * c);
  }

  lemma SignExtendScale(r: nat, bits: nat, width: nat)
    requires 0 < bits <= width && r < Pow2(bits)
    ensures SignExtend(r * Pow2(width - bits), width) / Pow2(width - bits) == SignExtend(r, bits)
  {
    var c, half := Pow2(width - bits), Pow2(bits - 1);
    assert Pow2(width) == c * Pow2(bits) by { Pow2Add(width - bits, bits); }
    assert Pow2(width - 1) == c * half by { Pow2Add(width - bits, bits - 1); }
    var q := SignExtend(r, bits);
    assert SignExtend(r * c, width) == q * c by {
      if r < half {
        ScaleBelow(r, half, c);
      } else {
        MulMono(half, r, c);
        DistributeSub(r, Pow2(bits), c);
      }
    }
    DivModUnique(q * c, c, q, 0);
  }

  lemma DistributeSub(a: int, b: int, c: int)
    ensures (a - b) * c == a * c - b * c
  {
  }

  lemma MulRearrange(h: nat, m: nat, r: nat, c: nat)
    ensures (h * m + r) * c == h * (c * m) + r * c
  {
    assert (h * m + r) * c == h * m * c + r * c;
  }

  lemma ScaleBelow(r: nat, m: nat, c: nat)
    requires r < m && c > 0
    ensures 0 <= r * c < c * m
  {
    assert (r + 1) * c <= m * c by { MulMono(r + 1, m, c); }
  }

  lemma MulMono(a: int, b: int, c: nat)
    requires a <= b
    ensures a * c <= b * c
  {
  }

  /** Powers of two as literals. */
  lemma Pow2Values()
    ensures Pow2(0) == 1 && Pow2(5) == 0x20 && Pow2(6) == 0x40
    ensures Pow2(8) == 0x100 && Pow2(10) == 0x400 && Pow2(11) == 0x800 && Pow2(12) == 0x1000
    ensures Pow2(16) == 0x1_0000 && Pow2(22) == 0x40_0000 && Pow2(24) == 0x100_0000
    ensures Pow2(2) == 4 && Pow2(19) == 0x8_0000 && Pow2(20) == 0x10_0000 && Pow2(21) == 0x20_0000
    ensures Pow2(23) == 0x80_0000 && Pow2(29) == 0x2000_0000
    ensures Pow2(25) == 0x200_0000 && Pow2(26) == 0x400_0000
    ensures Pow2(31) == 0x8000_0000 && Pow2(32) == 0x1_0000_0000 && Pow2(33) == 0x2_0000_0000
    ensures Pow2(64) == 0x1_0000_0000_0000_0000
  {
    assert Pow2(6) == 0x40;
    Pow2Add(6, 2);
    Pow2Add(8, 2);
    Pow2Add(10, 2);
    Pow2Add(10, 6);
    Pow2Add(10, 9);
    Pow2Add(19, 1);
    Pow2Add(20, 1);
    Pow2Add(22, 1);
    Pow2Add(12, 10);
    Pow2Add(16, 8);
    Pow2Add(24, 1);
    Pow2Add(24, 2);
    Pow2Add(26, 3);
    Pow2Add(26, 5);
    Pow2Add(31, 1);
    Pow2Add(32, 1);
    Pow2Add(32, 32);
  }
}
