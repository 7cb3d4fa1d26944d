/** Alignment arithmetic on 64-bit words (include/narthex/inl/align.h).

    Words are naturals below `WORD`; unsigned subtraction wraps modulo `WORD`. Bitwise `&` and `|`
    are defined digit by digit, so that every claim about it is proved rather than built in.
  */
module Align {

  const WORD: nat := 0x1_0000_0000_0000_0000

  function And(x: nat, y: nat): nat {
    if x == 0 || y == 0 then 0
    else 2 * And(x / 2, y / 2) + (if x % 2 == 1 && y % 2 == 1 then 1 else 0)
  }

  function Or(x: nat, y: nat): nat {
    if x == 0 then y
    else if y == 0 then x
    else 2 * Or(x / 2, y / 2) + (if x % 2 == 1 || y % 2 == 1 then 1 else 0)
  }

  // Two's complement negation, `(nth_uptr)0 - addr`.
  function Negate(addr: nat): nat
    requires addr < WORD
  {
    if addr == 0 then 0 else WORD - addr
  }

  predicate IsPow2(v: nat) {
    v != 0 && And(v, v - 1) == 0
  }

  predicate IsAligned(v: nat, align: nat)
    requires align > 0
  {
    And(v, align - 1) == 0
  }

  function AlignPad(addr: nat, align: nat): nat
    requires addr < WORD && align > 0
  {
    And(Negate(addr), align - 1)
  }

  // `~mask` on a 64-bit word is `WORD - 1 - mask`.
  function AlignUp(v: nat, align: nat): nat
    requires 0 < align <= WORD
  {
    var mask := align - 1;
    And((v + mask) % WORD, WORD - 1 - mask)
  }

  function AlignDown(v: nat, align: nat): nat
    requires 0 < align <= WORD
  {
    And(v, WORD - 1 - (align - 1))
  }

  function Pow2(k: nat): (p: nat)
    ensures p > 0
  {
    if k == 0 then 1 else 2 * Pow2(k - 1)
  }

  lemma {:induction false} AndZeroOfPow2(k: nat)
    ensures And(Pow2(k), Pow2(k) - 1) == 0
  {
    if k > 0 {
      var p := Pow2(k - 1);
      AndZeroOfPow2(k - 1);
      assert Pow2(k) / 2 == p && (Pow2(k) - 1) / 2 == p - 1;
    }
  }

  lemma {:induction false} Pow2OfAndZero(v: nat) returns (k: nat)
    requires IsPow2(v)
    ensures v == Pow2(k)
  {
    if v == 1 {
      k := 0;
    } else if v % 2 == 0 {
      assert (v - 1) / 2 == v / 2 - 1;
      k := Pow2OfAndZero(v / 2);
      k := k + 1;
    } else {
      assert (v - 1) / 2 == v / 2;
      AndSelf(v / 2);
      assert false;
    }
  }

  // The bit trick accepts exactly the powers of two.
  lemma IsPow2Iff(v: nat)
    ensures IsPow2(v) <==> exists k: nat :: v == Pow2(k)
  {
    if IsPow2(v) {
      var k := Pow2OfAndZero(v);
    }
    if k: nat :| v == Pow2(k) {
      AndZeroOfPow2(k);
    }
  }

  lemma {:induction false} AndSelf(x: nat)
    ensures And(x, x) == x
  {
    if x > 0 {
      AndSelf(x / 2);
    }
  }

  lemma AndOdd(x: nat, m: nat)
    ensures And(x, 2 * m + 1) == 2 * And(x / 2, m) + x % 2
  {
    assert (2 * m + 1) / 2 == m && (2 * m + 1) % 2 == 1;
  }

  // Masking with 2^k - 1 is the remainder modulo 2^k.
  lemma {:induction false} AndLowMask(x: nat, k: nat)
    ensures And(x, Pow2(k) - 1) == x % Pow2(k)
  {
    if k > 0 {
      var p := Pow2(k - 1);
      AndLowMask(x / 2, k - 1);
      AndOdd(x, p - 1);
      ModDouble(x, p);
    }
  }

  lemma ModDouble(x: nat, p: nat)
    requires p > 0
    ensures x % (2 * p) == 2 * (x / 2 % p) + x % 2
  {
    var q, r := x / 2 / p, x / 2 % p;
    assert x / 2 == q * p + r;
    assert x == q * (2 * p) + (2 * r + x % 2);
    ModUnique(x, 2 * p, q, 2 * r + x % 2);
  }

  lemma ModUnique(x: int, m: int, q: int, r: int)
    requires m > 0 && x == q * m + r && 0 <= r < m
    ensures x % m == r && x / m == q
  {
    var d := q - x / m;
    assert d > 0 ==> d * m >= m;
    assert d < 0 ==> d * m <= -m;
    assert d * m == x % m - r;
  }

  lemma MulDouble(x: int, y: int)
    ensures (2 * x) * y == 2 * (x * y) && y * (2 * x) == 2 * (y * x)
  {
  }

  lemma {:induction false} Pow2Add(a: nat, b: nat)
    ensures Pow2(a + b) == Pow2(a) * Pow2(b)
  {
    if a > 0 {
      Pow2Add(a - 1, b);
      MulDouble(Pow2(a - 1), Pow2(b));
    }
  }

  lemma {:induction false} Pow2Mono(a: nat, b: nat)
    requires a <= b
    ensures Pow2(a) <= Pow2(b)
  {
    if a < b {
      Pow2Mono(a, b - 1);
    }
  }

  // The sizes of the fields that words are divided into.
  lemma Widths()
    ensures Pow2(8) == 0x100 && Pow2(16) == 0x1_0000 && Pow2(24) == 0x100_0000
    ensures Pow2(32) == 0x1_0000_0000 && Pow2(48) == 0x1_0000_0000_0000
  {
    assert Pow2(4) == 16;
    hide Pow2;
    Pow2Add(4, 4);
    Pow2Add(8, 8);
    Pow2Add(16, 8);
    Pow2Add(16, 16);
    Pow2Add(32, 16);
  }

  lemma WordIsPow2()
    ensures WORD == Pow2(64)
  {
    hide Pow2;
    Widths();
    Pow2Add(32, 32);
  }

  // A word that is a power of two has an exponent below 64 and divides 2^64.
  lemma WordPow2(align: nat) returns (k: nat)
    requires IsPow2(align) && align < WORD
    ensures k < 64 && align == Pow2(k) && WORD % align == 0
  {
    k := Pow2OfAndZero(align);
    WordIsPow2();
    if k >= 64 {
      Pow2Mono(64, k);
      assert false;
    }
    Pow2Add(64 - k, k);
    ModUnique(WORD, align, Pow2(64 - k), 0);
  }

  predicate Multiple(v: int, align: nat)
    requires align > 0
  {
    v % align == 0
  }

  // The arithmetic meaning of padding: the residue of -addr.
  function Residue(addr: int, align: nat): (r: int)
    requires align > 0
    ensures 0 <= r < align
  {
    (0 - addr) % align
  }

  lemma NegateMod(addr: nat, align: nat)
    requires addr < WORD && align > 0 && WORD % align == 0
    ensures Negate(addr) % align == Residue(addr, align)
  {
    if addr > 0 {
      var q, r := (0 - addr) / align, Residue(addr, align);
      var w := WORD / align;
      assert WORD == w * align && 0 - addr == q * align + r;
      assert WORD - addr == (w + q) * align + r;
      ModUnique(WORD - addr, align, w + q, r);
    }
  }

  lemma ResidueUnique(addr: int, align: nat, q: int)
    requires align > 0 && 0 <= q < align && Multiple(addr + q, align)
    ensures q == Residue(addr, align)
  {
    var d := (addr + q) / align;
    assert addr + q == d * align;
    assert 0 - addr == (-d) * align + q;
    ModUnique(0 - addr, align, -d, q);
  }

  lemma ResidueAligns(addr: int, align: nat)
    requires align > 0
    ensures Multiple(addr + Residue(addr, align), align)
  {
    var q, r := (0 - addr) / align, Residue(addr, align);
    assert 0 - addr == q * align + r;
    assert addr + r == (-q) * align;
    ModUnique(addr + r, align, -q, 0);
  }

  lemma AlignPadIsResidue(addr: nat, align: nat)
    requires addr < WORD && align < WORD && IsPow2(align)
    ensures AlignPad(addr, align) == Residue(addr, align)
  {
    var k := WordPow2(align);
    AndLowMask(Negate(addr), k);
    NegateMod(addr, align);
  }

  // The wraparound pad of a 64-bit address is the least one that aligns it.
  lemma AlignPadLeast(addr: nat, align: nat)
    requires addr < WORD && align < WORD && IsPow2(align)
    ensures AlignPad(addr, align) < align && Multiple(addr + AlignPad(addr, align), align)
    ensures forall u: nat :: addr <= u && Multiple(u, align) ==> addr + AlignPad(addr, align) <= u
  {
    AlignPadIsResidue(addr, align);
    ResidueAligns(addr, align);
    forall u: nat | addr <= u && Multiple(u, align)
      ensures addr + AlignPad(addr, align) <= u
    {
      if u - addr < align {
        ResidueUnique(addr, align, u - addr);
      }
    }
  }

  lemma AlignedIff(v: nat, align: nat)
    requires align < WORD && IsPow2(align)
    ensures IsAligned(v, align) <==> v % align == 0
  {
    var k := WordPow2(align);
    AndLowMask(v, k);
  }

  lemma AndEven(x: nat, m: nat)
    ensures And(x, 2 * m) == 2 * And(x / 2, m)
  {
    assert (2 * m) / 2 == m && (2 * m) % 2 == 0;
  }

  lemma AndHighStep(x: nat, m: nat, p: nat)
    requires p > 0 && And(x / 2, m) == x / 2 - x / 2 % p
    ensures And(x, 2 * m) == x - x % (2 * p)
  {
    AndEven(x, m);
    ModDouble(x, p);
  }

  // Masking with 2^n - 2^k clears the low k bits of an n-bit word.
  lemma {:induction false} AndHighMask(x: nat, k: nat, n: nat, d: nat, w: nat)
    requires k <= n && d == Pow2(k) && w == Pow2(n) && x < w && d <= w
    ensures And(x, w - d) == x - x % d
  {
    if k == 0 {
      AndLowMask(x, n);
      SmallMod(x, w);
    } else {
      var p, v := Pow2(k - 1), Pow2(n - 1);
      assert w == 2 * v && d == 2 * p;
      AndHighMask(x / 2, k - 1, n - 1, p, v);
      AndHighStep(x, v - p, p);
      assert w - d == 2 * (v - p);
    }
  }

  lemma SmallMod(x: nat, w: nat)
    requires x < w
    ensures x % w == x
  {
  }

  lemma AlignDownIs(v: nat, align: nat)
    requires v < WORD && align < WORD && IsPow2(align)
    ensures AlignDown(v, align) == v - v % align
  {
    var k := WordPow2(align);
    WordIsPow2();
    AndHighMask(v, k, 64, align, WORD);
  }

  lemma FloorMultiple(x: int, align: nat)
    requires align > 0
    ensures Multiple(x - x % align, align)
  {
    assert x == x / align * align + x % align;
    ModUnique(x - x % align, align, x / align, 0);
  }

  // Rounding up agrees with padding whenever the rounding sum does not wrap.
  lemma AlignUpIsPadded(v: nat, align: nat)
    requires align < WORD && IsPow2(align) && v + (align - 1) < WORD
    ensures AlignUp(v, align) == v + AlignPad(v, align)
  {
    var x := v + (align - 1);
    SmallMod(x, WORD);
    assert AlignUp(v, align) == AlignDown(x, align);
    AlignDownIs(x, align);
    AlignPadIsResidue(v, align);
    RoundIsResidue(v, align);
  }

  lemma RoundIsResidue(v: nat, align: nat)
    requires align > 0
    ensures var x := v + (align - 1); x - x % align == v + Residue(v, align)
  {
    var x := v + (align - 1);
    FloorMultiple(x, align);
    ResidueUnique(v, align, x - x % align - v);
  }

  // Bits that do not overlap add up.
  lemma {:induction false} OrDisjoint(q: nat, k: nat, y: nat)
    requires y < Pow2(k)
    ensures Or(q * Pow2(k), y) == q * Pow2(k) + y
  {
    if k > 0 && y != 0 && q != 0 {
      var p := Pow2(k - 1);
      var x := q * p;
      assert q * Pow2(k) == 2 * x by {
        MulDouble(p, q);
      }
      OrDisjoint(q, k - 1, y / 2);
    }
  }
}
