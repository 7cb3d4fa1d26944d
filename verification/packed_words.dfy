/** The two words that pack several fields: a block's key (modules/allocator/free_list.c) and a
    path's meta word (src/nth_path.c). The other modules keep these fields apart; this one shows
    that the shifting and masking of the source lets them.
  */
module PackedWords {
  import opened Align

  /* ------------------------------------------------------------------ */
  /*  Arithmetic                                                         */
  /* ------------------------------------------------------------------ */

  lemma Distribute(a: int, b: int, c: int)
    ensures (a + b) * c == a * c + b * c
  {
  }

  lemma Associate(a: int, b: int, c: int)
    ensures a * (b * c) == (a * b) * c
  {
  }

  lemma Below(a: int, b: int, c: int)
    requires a < b && 0 <= c
    ensures a * c + c <= b * c
  {
    Distribute(a + 1, b - (a + 1), c);
    Distribute(a, 1, c);
    assert (b - (a + 1)) * c >= 0;
  }

  lemma Grows(a: int, b: int, c: int)
    requires 0 <= c
    ensures a <= b ==> a * c <= b * c
  {
    Distribute(a, b - a, c);
    assert a <= b ==> (b - a) * c >= 0;
  }

  lemma DivMod(w: nat, p: nat)
    requires p > 0
    ensures 0 <= w / p && 0 <= w % p < p && w == w / p * p + w % p
  {
  }

  // Dividing twice is dividing by the product.
  lemma DivDiv(w: nat, p: nat, n: nat)
    requires p > 0 && n > 0
    ensures p * n > 0 && w / (p * n) == w / p / n
  {
    var m, l := w / p, w % p;
    var q, r := m / n, m % n;
    DivMod(w, p);
    DivMod(m, n);
    Distribute(q * n, r, p);
    Associate(q, n, p);
    assert n * p == p * n;
    Below(r, n, p);
    assert r * p + l < p * n;
    assert r * p >= 0;
    ModUnique(w, p * n, q, r * p + l);
  }

  // A word is what lies above a field, the field, and what lies below it, and each can be read
  // back from their sum.
  lemma PartsOf(w: nat, p: nat, n: nat)
    requires p > 0 && n > 0
    ensures p * n > 0 && w == w / (p * n) * (p * n) + w / p % n * p + w % p
  {
    var m := w / p;
    DivDiv(w, p, n);
    DivMod(w, p);
    DivMod(m, n);
    Distribute(m / n * n, m % n, p);
    Associate(m / n, n, p);
    assert n * p == p * n;
  }

  lemma PartsRead(h: nat, v: nat, l: nat, p: nat, n: nat)
    requires v < n && l < p
    ensures p * n > 0
    ensures var w := h * (p * n) + v * p + l;
            w / p == h * n + v && w / p % n == v && w / (p * n) == h && w % p == l
  {
    var w, m := h * (p * n) + v * p + l, h * n + v;
    Distribute(h * n, v, p);
    Associate(h, n, p);
    assert n * p == p * n;
    ModUnique(w, p, m, l);
    ModUnique(m, n, h, v);
    DivDiv(w, p, n);
  }

  lemma DivDouble(x: nat, q: nat)
    requires q > 0
    ensures x / 2 / q == x / (2 * q)
  {
    DivDiv(x, 2, q);
  }

  /* ------------------------------------------------------------------ */
  /*  Getters and setters                                                */
  /* ------------------------------------------------------------------ */

  // The values of n bits, and the mask that selects them.
  function Mask(n: nat): nat {
    Pow2(n) - 1
  }

  // `w >> s`
  function Shr(w: nat, s: nat): nat {
    DivMod(w, Pow2(s));
    w / Pow2(s)
  }

  // The n bits from bit s on: shift, then mask.
  function Get(w: nat, s: nat, n: nat): nat {
    And(Shr(w, s), Mask(n))
  }

  // The word without those bits: `w & ~(mask << s)`.
  function Cleared(w: nat, s: nat, n: nat): nat
    requires s + n <= 64
  {
    MaskFits(s, n);
    And(w, WORD - 1 - Mask(n) * Pow2(s))
  }

  // The word with those bits taken from v: clear, then or in the masked and shifted value.
  function Put(w: nat, s: nat, n: nat, v: nat): nat
    requires s + n <= 64
  {
    Or(Cleared(w, s, n), And(v, Mask(n)) * Pow2(s))
  }

  lemma MaskFits(s: nat, n: nat)
    requires s + n <= 64
    ensures 0 <= Mask(n) * Pow2(s) < WORD
  {
    hide Pow2;
    WordIsPow2();
    ClearFits(s, n, 64);
  }

  /* ------------------------------------------------------------------ */
  /*  What the bit operations compute                                    */
  /* ------------------------------------------------------------------ */

  // One bit of a word below a cleared field.
  lemma ClearStep(w: nat, p: nat, m: nat, q: nat)
    requires p > 0 && q > 0 && And(w / 2, m) == w / 2 / q * q + w / 2 % p
    ensures And(w, 2 * m + 1) == w / (2 * q) * (2 * q) + w % (2 * p)
  {
    hide And;
    AndOdd(w, m);
    DivDouble(w, q);
    ModDouble(w, p);
    MulDouble(q, w / (2 * q));
  }

  lemma ClearUp(w: nat, k: nat, p: nat, pp: nat, m: nat, mm: nat, q: nat, qq: nat)
    requires p > 0 && q > 0 && pp == 2 * p && mm == 2 * m && qq == 2 * q && 0 <= k * p < m
    requires And(w / 2, m - 1 - k * p) == w / 2 / q * q + w / 2 % p
    ensures 0 <= k * pp < mm && And(w, mm - 1 - k * pp) == w / qq * qq + w % pp
  {
    hide And;
    MulDouble(p, k);
    var c: nat := k * p;
    assert 2 * (m - 1 - c) + 1 == mm - 1 - k * pp;
    ClearStep(w, p, m - 1 - c, q);
  }

  // Clearing n bits from bit s on leaves the bits above them and the bits below.
  lemma {:induction false} ClearIs(w: nat, s: nat, n: nat, m: nat)
    requires s + n <= m && w < Pow2(m)
    ensures 0 <= Mask(n) * Pow2(s) < Pow2(m)
    ensures And(w, Pow2(m) - 1 - Mask(n) * Pow2(s)) == w / Pow2(s + n) * Pow2(s + n) + w % Pow2(s)
    decreases s
  {
    hide And, Pow2, Mask;
    ClearFits(s, n, m);
    if s == 0 {
      ClearTop(w, n, m);
    } else {
      Pow2Double(s);
      Pow2Double(m);
      Pow2Double(s + n);
      ClearIs(w / 2, s - 1, n, m - 1);
      ClearUp(w, Mask(n), Pow2(s - 1), Pow2(s), Pow2(m - 1), Pow2(m), Pow2(s - 1 + n), Pow2(s + n));
    }
  }

  lemma Pow2Double(s: nat)
    requires s > 0
    ensures Pow2(s) == 2 * Pow2(s - 1)
  {
  }

  lemma ClearFits(s: nat, n: nat, m: nat)
    requires s + n <= m
    ensures 0 <= Mask(n) * Pow2(s) < Pow2(m)
  {
    hide Pow2;
    Pow2Add(n, s);
    Pow2Mono(n + s, m);
    Below(Mask(n), Pow2(n), Pow2(s));
    Grows(0, Mask(n), Pow2(s));
  }

  lemma ClearTop(w: nat, n: nat, m: nat)
    requires n <= m && w < Pow2(m)
    ensures Pow2(0) == 1 && Mask(n) < Pow2(m)
    ensures And(w, Pow2(m) - 1 - Mask(n)) == w / Pow2(n) * Pow2(n) + w % 1
  {
    Pow2Mono(n, m);
    AndHighMask(w, n, m, Pow2(n), Pow2(m));
    hide And;
    DivMod(w, Pow2(n));
  }

  lemma OrBits(x: nat, y: nat)
    ensures Or(x, y) == 2 * Or(x / 2, y / 2) + (if x % 2 == 1 || y % 2 == 1 then 1 else 0)
  {
  }

  lemma OrStep(x: nat, l: nat, y: nat)
    requires Or(x + l / 2, y) == x + l / 2 + y
    ensures Or(2 * x + l, 2 * y) == 2 * x + l + 2 * y
  {
    hide Or;
    var a, b := 2 * x + l, 2 * y;
    OrBits(a, b);
    assert a / 2 == x + l / 2 && a % 2 == l % 2;
    assert b / 2 == y && b % 2 == 0;
    assert a == 2 * (a / 2) + a % 2;
  }

  // Or-ing v in at bit s, where the other operand has no bits, adds it.
  lemma {:induction false} OrIs(h: nat, l: nat, v: nat, s: nat, n: nat)
    requires l < Pow2(s) && v < Pow2(n)
    ensures Or(h * Pow2(s + n) + l, v * Pow2(s)) == h * Pow2(s + n) + l + v * Pow2(s)
    decreases s
  {
    hide Or;
    if s == 0 {
      OrDisjoint(h, n, v);
      assert Pow2(0) == 1;
    } else {
      hide Pow2;
      Pow2Double(s);
      Pow2Double(s + n);
      OrIs(h, l / 2, v, s - 1, n);
      Grows(0, h, Pow2(s - 1 + n));
      Grows(0, v, Pow2(s - 1));
      var x, y := h * Pow2(s - 1 + n), v * Pow2(s - 1);
      OrStep(x, l, y);
      MulDouble(Pow2(s - 1 + n), h);
      MulDouble(Pow2(s - 1), v);
    }
  }

  lemma GetIs(w: nat, s: nat, n: nat)
    ensures Get(w, s, n) == w / Pow2(s) % Pow2(n)
  {
    AndLowMask(Shr(w, s), n);
  }

  lemma PutIs(w: nat, s: nat, n: nat, v: nat)
    requires s + n <= 64 && w < WORD
    ensures Cleared(w, s, n) == w / Pow2(s + n) * Pow2(s + n) + w % Pow2(s)
    ensures Put(w, s, n, v) == w / Pow2(s + n) * Pow2(s + n) + v % Pow2(n) * Pow2(s) + w % Pow2(s)
  {
    hide And, Or, Pow2;
    WordIsPow2();
    ClearIs(w, s, n, 64);
    AndLowMask(v, n);
    DivMod(w, Pow2(s));
    DivMod(v, Pow2(n));
    DivMod(w, Pow2(s + n));
    OrIs(w / Pow2(s + n), w % Pow2(s), v % Pow2(n), s, n);
  }

  /* ------------------------------------------------------------------ */
  /*  Fields                                                             */
  /* ------------------------------------------------------------------ */

  // A field below bit s sees only what lies below it.
  lemma LowDigits(w: nat, i: nat, n: nat, s: nat)
    requires i + n <= s
    ensures w / Pow2(i) % Pow2(n) == w % Pow2(s) / Pow2(i) % Pow2(n)
  {
    hide Pow2;
    var p, q, r := Pow2(i), Pow2(n), Pow2(s - (i + n));
    Pow2Add(i, n);
    Pow2Add(s - (i + n), i + n);
    DivMod(w, Pow2(s));
    var h, l := w / Pow2(s), w % Pow2(s);
    PartsOf(l, p, q);
    var a, b, c := l / (p * q), l / p % q, l % p;
    DivMod(l, p * q);
    DivMod(l, p);
    DivMod(l / p, q);
    Associate(h, r, p * q);
    Distribute(h * r, a, p * q);
    assert h * r >= 0;
    PartsRead(h * r + a, b, c, p, q);
  }

  lemma HighDigits(w: nat, s: nat, t: nat)
    requires s <= t
    ensures w / Pow2(t) == w / Pow2(s) / Pow2(t - s)
  {
    hide Pow2;
    Pow2Add(s, t - s);
    DivDiv(w, Pow2(s), Pow2(t - s));
  }

  // Setting bits gives a word, is read back modulo their number, and so exactly when it fits, and is
  // not seen through any field above or below.
  lemma PutGet(w: nat, s: nat, n: nat, v: nat)
    requires s + n <= 64 && w < WORD
    ensures Put(w, s, n, v) < WORD
    ensures Get(Put(w, s, n, v), s, n) == v % Pow2(n)
    ensures Get(Put(w, s, n, v), s, n) == v <==> v < Pow2(n)
  {
    hide And, Or, Pow2, Get, Put;
    PutIs(w, s, n, v);
    DivMod(w, Pow2(s));
    DivMod(v, Pow2(n));
    DivMod(w, Pow2(s + n));
    Pow2Add(s, n);
    PartsRead(w / Pow2(s + n), v % Pow2(n), w % Pow2(s), Pow2(s), Pow2(n));
    GetIs(Put(w, s, n, v), s, n);
    PutFits(w, s, n, v % Pow2(n));
    Remainder(v, Pow2(n));
  }

  lemma Remainder(v: nat, n: nat)
    requires n > 0
    ensures v % n == v <==> v < n
  {
    if v < n {
      ModUnique(v, n, 0, v);
    }
  }

  lemma PutFits(w: nat, s: nat, n: nat, v: nat)
    requires s + n <= 64 && w < WORD && v < Pow2(n)
    ensures w / Pow2(s + n) * Pow2(s + n) + v * Pow2(s) + w % Pow2(s) < WORD
  {
    hide Pow2;
    WordIsPow2();
    var a := Pow2(s + n);
    var b := Pow2(64 - (s + n));
    Pow2Add(s, n);
    Pow2Add(64 - (s + n), s + n);
    DivMod(w, Pow2(s));
    DivMod(w, a);
    var h := w / a;
    Grows(b, h, a);
    assert h < b;
    Below(v, Pow2(n), Pow2(s));
    Below(h, b, a);
    assert Pow2(n) * Pow2(s) == a;
  }

  lemma PutKeeps(w: nat, s: nat, n: nat, v: nat, t: nat, k: nat)
    requires s + n <= 64 && w < WORD && (t + k <= s || s + n <= t)
    ensures Get(Put(w, s, n, v), t, k) == Get(w, t, k)
  {
    hide And, Or, Pow2, Get, Put;
    PutIs(w, s, n, v);
    DivMod(w, Pow2(s));
    DivMod(v, Pow2(n));
    DivMod(w, Pow2(s + n));
    Pow2Add(s, n);
    PartsRead(w / Pow2(s + n), v % Pow2(n), w % Pow2(s), Pow2(s), Pow2(n));
    var x := Put(w, s, n, v);
    GetIs(x, t, k);
    GetIs(w, t, k);
    if t + k <= s {
      LowDigits(x, t, k, s);
      LowDigits(w, t, k, s);
    } else {
      HighDigits(x, s + n, t);
      HighDigits(w, s + n, t);
    }
  }

  /* ------------------------------------------------------------------ */
  /*  Single bits                                                        */
  /* ------------------------------------------------------------------ */

  function Bit(w: nat, b: nat): nat {
    DivMod(w, Pow2(b));
    w / Pow2(b) % 2
  }

  lemma BitDown(w: nat, b: nat)
    requires b > 0
    ensures Bit(w, b) == Bit(w / 2, b - 1)
  {
    Pow2Double(b);
    hide Pow2;
    DivDouble(w, Pow2(b - 1));
  }

  lemma {:induction false} AndBit(w: nat, b: nat)
    ensures And(w, Pow2(b)) == Bit(w, b) * Pow2(b)
    decreases b
  {
    hide And;
    if b == 0 {
      assert Pow2(0) == 1;
      AndOdd(w, 0);
      AndNothing(w / 2);
    } else {
      BitDown(w, b);
      AndBit(w / 2, b - 1);
      Pow2Double(b);
      AndEven(w, Pow2(b - 1));
      hide Pow2, Bit;
      MulDouble(Pow2(b - 1), Bit(w, b));
    }
  }

  lemma AndNothing(w: nat)
    ensures And(w, 0) == 0
  {
  }

  lemma {:induction false} OrBit(w: nat, b: nat)
    ensures Or(w, Pow2(b)) == w + if Bit(w, b) == 1 then 0 else Pow2(b)
    decreases b
  {
    hide Or;
    OrBits(w, Pow2(b));
    if b == 0 {
      assert Pow2(0) == 1;
      OrNothing(w / 2);
    } else {
      BitDown(w, b);
      OrBit(w / 2, b - 1);
      Pow2Double(b);
      hide Pow2, Bit;
      assert Pow2(b) / 2 == Pow2(b - 1) && Pow2(b) % 2 == 0;
    }
  }

  lemma OrNothing(w: nat)
    ensures Or(w, 0) == w
  {
  }

  lemma BitIsGet(w: nat, b: nat)
    ensures Get(w, b, 1) == Bit(w, b)
  {
    GetIs(w, b, 1);
    assert Pow2(1) == 2 * Pow2(0) == 2;
  }

  // Or-ing one bit in sets it as Put does, and and-ing its complement clears it.
  lemma OrIsPut(w: nat, b: nat)
    requires b < 64 && w < WORD
    ensures Or(w, Pow2(b)) == Put(w, b, 1, 1)
  {
    hide Or, Put, Get, Pow2, Cleared;
    PutIs(w, b, 1, 1);
    OrBit(w, b);
    OneBit();
    Pow2Double(b + 1);
    PartsOf(w, Pow2(b), 2);
    SetBit(w, w / (Pow2(b) * 2), Pow2(b), Bit(w, b), w % Pow2(b));
  }

  lemma SetBit(w: nat, h: nat, p: nat, v: nat, l: nat)
    requires v < 2 && w == h * (p * 2) + v * p + l
    ensures w + (if v == 1 then 0 else p) == h * (2 * p) + 1 % 2 * p + l
  {
    assert p * 2 == 2 * p;
    assert 1 % 2 * p == p;
  }

  lemma OneBit()
    ensures Pow2(0) == 1 && Pow2(1) == 2 && Mask(1) == 1
  {
    Pow2Double(1);
  }

  lemma AndIsPut(w: nat, b: nat)
    requires b < 64 && w < WORD
    ensures Pow2(b) < WORD && And(w, WORD - 1 - Pow2(b)) == Put(w, b, 1, 0)
  {
    MaskFits(b, 1);
    assert Pow2(1) == 2 * Pow2(0) == 2;
    PutIs(w, b, 1, 0);
    hide And, Put, Pow2;
    assert Mask(1) * Pow2(b) == Pow2(b);
    assert 0 * Pow2(b) == 0;
  }

  /* ------------------------------------------------------------------ */
  /*  Block keys: 48 bits of size, 16 bits of span index                 */
  /* ------------------------------------------------------------------ */

  function Csize(k: nat): nat { Get(k, 0, 48) }

  function SpanIdx(k: nat): nat { Get(k, 48, 16) }

  function SetCsize(k: nat, v: nat): nat { Put(k, 0, 48, v) }

  function SetSpanIdx(k: nat, v: nat): nat { Put(k, 48, 16, v) }

  // A setter is seen by its own getter only, and faithfully exactly when the value fits.
  lemma KeyFields(k: nat, v: nat)
    requires k < WORD
    ensures SetCsize(k, v) < WORD && SetSpanIdx(k, v) < WORD
    ensures Csize(SetCsize(k, v)) == v <==> v <= 0xFFFF_FFFF_FFFF
    ensures SpanIdx(SetCsize(k, v)) == SpanIdx(k)
    ensures SpanIdx(SetSpanIdx(k, v)) == v <==> v <= 0xFFFF
    ensures Csize(SetSpanIdx(k, v)) == Csize(k)
  {
    hide Get, Put, Pow2;
    Widths();
    PutGet(k, 0, 48, v);
    PutGet(k, 48, 16, v);
    PutKeeps(k, 0, 48, v, 48, 16);
    PutKeeps(k, 48, 16, v, 0, 48);
  }

  lemma KeyParts(k: nat)
    requires k < WORD
    ensures k == SpanIdx(k) * 0x1_0000_0000_0000 + Csize(k)
  {
    Widths();
    GetIs(k, 0, 48);
    GetIs(k, 48, 16);
    assert Pow2(0) == 1;
    hide Get, Pow2;
    var n := 0x1_0000_0000_0000;
    DivMod(k, n);
    assert k / 1 == k;
    assert k / n < 0x1_0000;
    Remainder(k / n, 0x1_0000);
  }

  // A key is its two fields and nothing else, so a header carved from raw memory is fully set by
  // the two setters whatever was there before.
  lemma KeyIsItsFields(k: nat, l: nat, csize: nat, idx: nat)
    requires k < WORD && l < WORD
    ensures Csize(k) == Csize(l) && SpanIdx(k) == SpanIdx(l) ==> k == l
    ensures SetCsize(k, csize) < WORD && SetCsize(l, csize) < WORD
    ensures SetSpanIdx(SetCsize(k, csize), idx) == SetSpanIdx(SetCsize(l, csize), idx)
  {
    hide Get, Put, Pow2;
    KeyParts(k);
    KeyParts(l);
    Rewritten(k, csize, idx);
    Rewritten(l, csize, idx);
    KeyParts(SetSpanIdx(SetCsize(k, csize), idx));
    KeyParts(SetSpanIdx(SetCsize(l, csize), idx));
  }

  lemma Rewritten(k: nat, csize: nat, idx: nat)
    requires k < WORD
    ensures SetCsize(k, csize) < WORD && SetSpanIdx(SetCsize(k, csize), idx) < WORD
    ensures Csize(SetSpanIdx(SetCsize(k, csize), idx)) == csize % Pow2(48)
    ensures SpanIdx(SetSpanIdx(SetCsize(k, csize), idx)) == idx % Pow2(16)
  {
    hide Get, Put, Pow2;
    var x := SetCsize(k, csize);
    PutGet(k, 0, 48, csize);
    PutGet(x, 48, 16, idx);
    PutKeeps(x, 48, 16, idx, 0, 48);
  }

  /* ------------------------------------------------------------------ */
  /*  Path meta words: length, capacity, flags, magic                    */
  /* ------------------------------------------------------------------ */

  const MAGIC: nat := 0x4E_5450
  const META_DEAD: nat := 0

  // `PATH_MAGIC << PATH_MAGIC_SHIFT`
  function MetaInit(): nat {
    MAGIC * Pow2(40)
  }

  // Numbers of the flag bits.
  const OWNED: nat := 0
  const INVALID: nat := 1
  const NORMALIZED: nat := 2

  function Len(m: nat): nat { Get(m, 0, 16) }

  function Cap(m: nat): nat { Get(m, 16, 16) }

  predicate IsLive(m: nat) { Get(m, 40, 24) == MAGIC }

  // The flags are shifted down but not masked before the test.
  predicate Has(m: nat, flag: nat) { And(Shr(m, 32), Pow2(flag)) != 0 }

  function SetLen(m: nat, v: nat): nat { Put(m, 0, 16, v) }

  function SetCap(m: nat, v: nat): nat { Put(m, 16, 16, v) }

  function SetFlag(m: nat, flag: nat): nat { Or(m, Pow2(32 + flag)) }

  function ClrFlag(m: nat, flag: nat): nat
    requires flag < 8
  {
    MaskFits(32 + flag, 1);
    assert Mask(1) == 1 by {
      assert Pow2(1) == 2 * Pow2(0) == 2;
    }
    And(m, WORD - 1 - Pow2(32 + flag))
  }

  // The source's test of a flag reads its bit.
  lemma HasIsBit(m: nat, flag: nat)
    ensures Has(m, flag) <==> Get(m, 32 + flag, 1) == 1
  {
    AndBit(Shr(m, 32), flag);
    BitIsGet(m, 32 + flag);
    HighDigits(m, 32, 32 + flag);
    hide And, Get, Pow2;
    var b := Bit(Shr(m, 32), flag);
    assert b == 0 || b == 1;
    assert 1 * Pow2(flag) == Pow2(flag) && 0 * Pow2(flag) == 0;
  }

  // The fields other than the 16 or 1 bits written.
  ghost predicate SameElse(m: nat, w: nat, s: nat, n: nat) {
    && (16 <= s ==> Len(w) == Len(m))
    && (s + n <= 16 || 32 <= s ==> Cap(w) == Cap(m))
    && (s + n <= 40 ==> IsLive(w) == IsLive(m))
    && (forall i: nat :: s + n <= 32 + i || 32 + i + 1 <= s ==> Has(w, i) == Has(m, i))
  }

  lemma PutElse(m: nat, s: nat, n: nat, v: nat)
    requires s + n <= 64 && m < WORD
    ensures SameElse(m, Put(m, s, n, v), s, n)
  {
    hide Put, Get, Has;
    var w := Put(m, s, n, v);
    if 16 <= s {
      PutKeeps(m, s, n, v, 0, 16);
    }
    if s + n <= 16 || 32 <= s {
      PutKeeps(m, s, n, v, 16, 16);
    }
    if s + n <= 40 {
      PutKeeps(m, s, n, v, 40, 24);
    }
    forall i: nat | s + n <= 32 + i || 32 + i + 1 <= s
      ensures Has(w, i) == Has(m, i)
    {
      PutKeeps(m, s, n, v, 32 + i, 1);
      HasIsBit(w, i);
      HasIsBit(m, i);
    }
  }

  lemma LenField(m: nat, v: nat)
    requires m < WORD
    ensures SetLen(m, v) < WORD && (Len(SetLen(m, v)) == v <==> v <= 0xFFFF)
    ensures Cap(SetLen(m, v)) == Cap(m) && IsLive(SetLen(m, v)) == IsLive(m)
    ensures forall i: nat :: Has(SetLen(m, v), i) == Has(m, i)
  {
    hide Put, Get, Has, Pow2;
    Widths();
    PutGet(m, 0, 16, v);
    PutElse(m, 0, 16, v);
  }

  lemma CapField(m: nat, v: nat)
    requires m < WORD
    ensures SetCap(m, v) < WORD && (Cap(SetCap(m, v)) == v <==> v <= 0xFFFF)
    ensures Len(SetCap(m, v)) == Len(m) && IsLive(SetCap(m, v)) == IsLive(m)
    ensures forall i: nat :: Has(SetCap(m, v), i) == Has(m, i)
  {
    hide Put, Get, Has, Pow2;
    Widths();
    PutGet(m, 16, 16, v);
    PutElse(m, 16, 16, v);
  }

  // A flag is set or cleared alone, and the sizes and the magic number stay.
  lemma FlagField(m: nat, flag: nat)
    requires m < WORD && flag < 8
    ensures FlagOnly(m, SetFlag(m, flag), flag) && Has(SetFlag(m, flag), flag)
    ensures FlagOnly(m, ClrFlag(m, flag), flag) && !Has(ClrFlag(m, flag), flag)
  {
    var b := 32 + flag;
    assert SetFlag(m, flag) == Put(m, b, 1, 1) by {
      OrIsPut(m, b);
    }
    assert ClrFlag(m, flag) == Put(m, b, 1, 0) by {
      AndIsPut(m, b);
    }
    hide SetFlag, ClrFlag;
    FlagPut(m, flag, 1);
    FlagPut(m, flag, 0);
  }

  ghost predicate FlagOnly(m: nat, w: nat, flag: nat) {
    && w < WORD && Len(w) == Len(m) && Cap(w) == Cap(m) && IsLive(w) == IsLive(m)
    && forall i: nat :: i != flag ==> Has(w, i) == Has(m, i)
  }

  lemma FlagPut(m: nat, flag: nat, v: nat)
    requires m < WORD && flag < 8 && v < 2
    ensures FlagOnly(m, Put(m, 32 + flag, 1, v), flag) && (Has(Put(m, 32 + flag, 1, v), flag) <==> v == 1)
  {
    hide Put, Get, Has, Pow2, Mask;
    OneBit();
    Remainder(v, 2);
    PutGet(m, 32 + flag, 1, v);
    PutElse(m, 32 + flag, 1, v);
    HasIsBit(Put(m, 32 + flag, 1, v), flag);
  }

  function WithFlag(m: nat, flag: nat, on: bool): nat {
    if on then SetFlag(m, flag) else m
  }

  // The word a path's fields pack into, made from the initial one as the set-ups make it.
  function Meta(len: nat, cap: nat, owned: bool, invalid: bool, normalized: bool): nat {
    var m := SetCap(SetLen(MetaInit(), len), cap);
    WithFlag(WithFlag(WithFlag(m, OWNED, owned), INVALID, invalid), NORMALIZED, normalized)
  }

  lemma InitialMeta()
    ensures MetaInit() < WORD && IsLive(MetaInit()) && !IsLive(META_DEAD)
    ensures forall i: nat :: i < 8 ==> !Has(MetaInit(), i)
  {
    Widths();
    Pow2Add(16, 24);
    Pow2Add(40, 24);
    WordIsPow2();
    var m := MetaInit();
    GetIs(m, 40, 24);
    GetIs(META_DEAD, 40, 24);
    hide Get, Has, Pow2;
    assert Pow2(40) == 0x100_0000_0000;
    ModUnique(m, Pow2(40), MAGIC, 0);
    ModUnique(MAGIC, Pow2(24), 0, MAGIC);
    ModUnique(0, Pow2(40), 0, 0);
    ModUnique(0, Pow2(24), 0, 0);
    forall i: nat | i < 8
      ensures !Has(m, i)
    {
      NoFlag(m, i);
    }
  }

  lemma NoFlag(m: nat, i: nat)
    requires m % Pow2(40) == 0 && i < 8
    ensures !Has(m, i)
  {
    hide Get, Has, Pow2;
    HasIsBit(m, i);
    GetIs(m, 32 + i, 1);
    LowDigits(m, 32 + i, 1, 40);
    ModUnique(0, Pow2(32 + i), 0, 0);
    ModUnique(0, Pow2(1), 0, 0);
  }

  lemma WithFlagKeeps(m: nat, flag: nat, on: bool)
    requires m < WORD && flag < 8 && !Has(m, flag)
    ensures var w := WithFlag(m, flag, on);
            FlagOnly(m, w, flag) && Has(w, flag) == on
  {
    hide Get, Has, SetFlag, ClrFlag;
    FlagField(m, flag);
  }

  // Everything packed into a meta word reads back, when the sizes fit their 16 bits.
  lemma MetaReads(len: nat, cap: nat, owned: bool, invalid: bool, normalized: bool)
    requires len <= 0xFFFF && cap <= 0xFFFF
    ensures var m := Meta(len, cap, owned, invalid, normalized);
            && m < WORD && IsLive(m) && Len(m) == len && Cap(m) == cap
            && Has(m, OWNED) == owned && Has(m, INVALID) == invalid && Has(m, NORMALIZED) == normalized
  {
    hide And, Or, Get, Put, Has, SetFlag, SetLen, SetCap, WithFlag, Pow2;
    InitialMeta();
    var m0 := MetaInit();
    LenField(m0, len);
    var m1 := SetLen(m0, len);
    CapField(m1, cap);
    var m2 := SetCap(m1, cap);
    WithFlagKeeps(m2, OWNED, owned);
    var m3 := WithFlag(m2, OWNED, owned);
    WithFlagKeeps(m3, INVALID, invalid);
    WithFlagKeeps(WithFlag(m3, INVALID, invalid), NORMALIZED, normalized);
  }
}
