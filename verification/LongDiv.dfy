/** Division and multiplication of 32-bit numbers on 16-bit registers, by shifting and
    subtracting. A long is kept in a pair of registers, high word first. */
module LongDiv {

  type word = x: int | 0 <= x < 0x1_0000

  const LONG: nat := 0x1_0000_0000

  function Long(hi: word, lo: word): (x: nat)
    ensures x < LONG
  {
    hi * 0x1_0000 + lo
  }

  /** The number that a long stands for in two's complement. */
  function Signed(x: nat): int
    requires x < LONG
  {
    if x < 0x8000_0000 then x else x - LONG
  }

  function Mod(x: int): (r: nat)
    ensures r < LONG
  {
    x % LONG
  }

  // ----- instructions: the result and the carry

  function Shl(x: word): (word, bool) { Rcl(x, false) }

  function Rcl(x: word, c: bool): (word, bool) {
    var y := 2 * x + if c then 1 else 0;
    if y < 0x1_0000 then (y, false) else (y - 0x1_0000, true)
  }

  function Rcr(x: word, c: bool): (word, bool) {
    (x / 2 + if c then 0x8000 else 0, x % 2 == 1)
  }

  function Adc(x: word, y: word, c: bool): (word, bool) {
    var z := x + y + if c then 1 else 0;
    if z < 0x1_0000 then (z, false) else (z - 0x1_0000, true)
  }

  function Sbb(x: word, y: word, c: bool): (word, bool) {
    var z := x - y - if c then 1 else 0;
    if z >= 0 then (z, false) else (z + 0x1_0000, true)
  }

  function Neg(x: word): (word, bool) {
    if x == 0 then (0, false) else (0x1_0000 - x, true)
  }

  function Not(x: word): word { 0xFFFF - x }

  // ----- the instructions on pairs of registers

  lemma ShlLong(hi: word, lo: word)
    ensures var (l, c) := Shl(lo); var (h, d) := Rcl(hi, c);
            Long(h, l) + (if d then LONG else 0) == 2 * Long(hi, lo)
  {
  }

  lemma RcrLong(hi: word, lo: word, c: bool)
    ensures var (h, d) := Rcr(hi, c); var (l, e) := Rcr(lo, d);
            Long(h, l) == (Long(hi, lo) + if c then LONG else 0) / 2
  {
  }

  lemma AddLong(hi: word, lo: word, hi': word, lo': word)
    ensures var (l, c) := Adc(lo, lo', false); var (h, d) := Adc(hi, hi', c);
            Long(h, l) + (if d then LONG else 0) == Long(hi, lo) + Long(hi', lo')
  {
  }

  lemma SubLong(hi: word, lo: word, hi': word, lo': word)
    ensures var (l, c) := Sbb(lo, lo', false); var (h, d) := Sbb(hi, hi', c);
            Long(h, l) == Long(hi, lo) - Long(hi', lo') + (if d then LONG else 0)
            && (d <==> Long(hi, lo) < Long(hi', lo'))
  {
  }

  lemma NegLong(hi: word, lo: word)
    ensures var (l, c) := Neg(lo); var (h, d) := Sbb(Neg(hi).0, 0, c);
            Long(h, l) == if Long(hi, lo) == 0 then 0 else LONG - Long(hi, lo)
  {
  }

  // ----- division

  /** The quotient rounded towards minus infinity. */
  function FloorDiv(a: int, b: int): int
    requires b != 0
  {
    if b > 0 then a / b else (-a) / (-b)
  }

  function FloorMod(a: int, b: int): (r: int)
    requires b != 0
  {
    a - b * FloorDiv(a, b)
  }

  /** The remainder has the sign of the divisor and is smaller. */
  lemma FloorBounds(a: int, b: int)
    requires b != 0
    ensures if b > 0 then 0 <= FloorMod(a, b) < b else b < FloorMod(a, b) <= 0
  {
  }

  /** No other quotient leaves such a remainder. */
  lemma FloorUnique(a: int, b: int, q: int, r: int)
    requires b != 0 && a == b * q + r
    requires if b > 0 then 0 <= r < b else b < r <= 0
    ensures q == FloorDiv(a, b) && r == FloorMod(a, b)
  {
    FloorBounds(a, b);
    var q', r' := FloorDiv(a, b), FloorMod(a, b);
    var m := if b > 0 then b else -b;
    assert b * (q - q') == r' - r;
    if q - q' >= 1 { Product(m, q - q' - 1); }
    if q' - q >= 1 { Product(m, q' - q - 1); }
  }

  lemma Product(x: int, y: int)
    requires 0 < x && 0 <= y
    ensures x * (y + 1) >= x && x * (y + 1) == x * y + x
  {
  }

  /** What division without signs leaves: a divisor of 0 gives quotient 0 and the dividend. */
  ghost predicate Divided(a: nat, b: nat, q: nat, r: nat) {
    match b
    case 0 => q == 0 && r == a
    case _ => a == b * q + r && r < b
  }

  /** What division leaves when the signs of dividend and divisor are as given. */
  ghost predicate DividedSigned(a: int, b: int, q: nat, r: nat) {
    if b == 0 then q == 0 && r == Mod(a) else q == Mod(FloorDiv(a, b)) && r == Mod(FloorMod(a, b))
  }

  function Negated(x: int, negative: bool): int { if negative then -x else x }

  /** The four ways the signs are put back. */
  lemma SignsFixed(a: nat, b: nat, q: nat, r: nat, aminus: bool, bminus: bool)
    requires b > 0 && Divided(a, b, q, r)
    ensures var a', b' := Negated(a, aminus), Negated(b, bminus);
            if aminus == bminus then
              FloorDiv(a', b') == q && FloorMod(a', b') == Negated(r, aminus)
            else if r == 0 then
              FloorDiv(a', b') == 0 - q && FloorMod(a', b') == 0
            else
              FloorDiv(a', b') == -1 - q && FloorMod(a', b') == if aminus then b - r else r - b
  {
    var a', b' := Negated(a, aminus), Negated(b, bminus);
    var q' := if aminus == bminus then q else if r == 0 then 0 - q else -1 - q;
    var r' := if aminus == bminus then Negated(r, aminus) else if r == 0 then 0 else if aminus then b - r else r - b;
    assert a' == b' * q' + r' by { Distribute(b, q); }
    FloorUnique(a', b', q', r');
  }

  lemma Distribute(b: int, q: int)
    ensures b * (-q) == -(b * q) == (-b) * q
    ensures b * (-1 - q) == -b - b * q && (-b) * (-1 - q) == b + b * q && (-b) * (-q) == b * q
  {
  }

  /** One turn of the subtracting loop: the next bit of the quotient. */
  lemma NextBit(a: nat, q: nat, w: nat, r: nat)
    requires Divided(a, 2 * w, q, r) && a < LONG && 0 < w
    ensures 2 * q < LONG && (w <= r ==> 2 * q + 1 < LONG)
    ensures if w <= r then Divided(a, w, 2 * q + 1, r - w) else Divided(a, w, 2 * q, r)
  {
    assert (2 * w) * q == w * (2 * q) by { Reorder(w, q); }
    assert w * (2 * q + 1) == w * (2 * q) + w by { Reorder(w, q); }
    AtLeast(2 * q, w);
    AtLeast(2 * q + 1, w);
  }

  lemma Reorder(w: nat, q: nat)
    ensures (2 * w) * q == w * (2 * q) && w * (2 * q + 1) == w * (2 * q) + w
  {
  }

  lemma Times(x: int, y: int, z: nat)
    requires x <= y
    ensures x * z <= y * z && z * x <= z * y
  {
    assert (y - x) * z >= 0;
  }

  lemma AtLeast(x: nat, w: nat)
    requires 0 < w
    ensures w * x >= x
  {
  }

  class Cpu {
    var ax: word
    var bx: word
    var cx: word
    var dx: word
    var si: word
    var di: word
    var cf: bool
    var b0: word   // the divisor on the stack
    var b16: word

    method ShlCxDi()
      modifies this`cx, this`di, this`cf
      ensures Long(di, cx) + (if cf then LONG else 0) == 2 * old(Long(di, cx))
    {
      ShlLong(di, cx);
      var (x, c) := Shl(cx);
      cx, cf := x, c;
      var (y, d) := Rcl(di, cf);
      di, cf := y, d;
    }

    method ShlDxSi()
      modifies this`dx, this`si, this`cf
      ensures Long(si, dx) + (if cf then LONG else 0) == 2 * old(Long(si, dx))
    {
      ShlLong(si, dx);
      var (x, c) := Shl(dx);
      dx, cf := x, c;
      var (y, d) := Rcl(si, cf);
      si, cf := y, d;
    }

    /** Halves si:dx, taking the carry in at the top. */
    method RcrSiDx()
      modifies this`dx, this`si, this`cf
      ensures Long(si, dx) == old(Long(si, dx) + if cf then LONG else 0) / 2
    {
      RcrLong(si, dx, cf);
      var (x, c) := Rcr(si, cf);
      si, cf := x, c;
      var (y, d) := Rcr(dx, cf);
      dx, cf := y, d;
    }

    /** r = r - w */
    method SubSiDx()
      requires Long(si, dx) <= Long(bx, ax)
      modifies this`ax, this`bx, this`cf
      ensures Long(bx, ax) == old(Long(bx, ax)) - Long(si, dx)
    {
      SubLong(bx, ax, si, dx);
      var (x, c) := Sbb(ax, dx, false);
      ax, cf := x, c;
      var (y, d) := Sbb(bx, si, cf);
      bx, cf := y, d;
    }

    /** q++ */
    method IncDiCx()
      requires Long(di, cx) + 1 < LONG
      modifies this`cx, this`di, this`cf
      ensures Long(di, cx) == old(Long(di, cx)) + 1
    {
      AddLong(di, cx, 0, 1);
      var (x, c) := Adc(cx, 1, false);
      cx, cf := x, c;
      var (y, d) := Adc(di, 0, cf);
      di, cf := y, d;
    }

    /** loop1: rotates w = b to the greatest b * 2^k that is not above r. */
    method Loop1() returns (ghost k: nat)
      requires 0 < Long(si, dx) <= Long(bx, ax)
      modifies this`dx, this`si, this`cf
      ensures Long(si, dx) == Scaled(old(Long(si, dx)), k)
      ensures Long(si, dx) <= Long(bx, ax) < 2 * Long(si, dx)
    {
      ghost var b := Long(si, dx);
      k := 0;
      while true
        invariant 0 < Long(si, dx) <= Long(bx, ax) && Long(si, dx) == Scaled(b, k)
        decreases Long(bx, ax) - Long(si, dx)
      {
        ghost var w := Long(si, dx);
        ShlDxSi();
        if cf { break; }            // the bit shifted out makes w larger than r
        if si < bx { k := k + 1; continue; }
        if si > bx { break; }
        if dx <= ax { k := k + 1; continue; }
        break;
      }
      RcrSiDx();
    }

    /** loop2: takes the bits of the quotient from the highest down, halving w until it is below b. */
    method Loop2(ghost a: nat, ghost k0: nat)
      requires 0 < Long(b16, b0) && Long(si, dx) == Scaled(Long(b16, b0), k0) && Long(di, cx) == 0
      requires Long(bx, ax) == a && a < 2 * Long(si, dx)
      modifies this`ax, this`bx, this`cx, this`di, this`dx, this`si, this`cf
      ensures Divided(a, Long(b16, b0), Long(di, cx), Long(bx, ax))
    {
      hide Divided, Long, Scaled;
      ghost var b, k := Long(b16, b0), k0;
      NoneDivided(a, 2 * Long(si, dx));
      while true
        invariant Long(si, dx) == Scaled(b, k) && a < LONG
        invariant Divided(a, 2 * Long(si, dx), Long(di, cx), Long(bx, ax))
        decreases k
      {
        ghost var w := Long(si, dx);
        ScaledUp(b, k);
        NextBit(a, Long(di, cx), w, Long(bx, ax));
        Compare(bx, ax, si, dx);
        ShlCxDi();
        if si < bx || (si == bx && dx <= ax) {
          IncDiCx();
          SubSiDx();
        }
        assert Divided(a, w, Long(di, cx), Long(bx, ax));
        cf := false;
        RcrSiDx();
        Compare(si, dx, b16, b0);
        if si > b16 { k := k - 1; continue; }
        if si < b16 { break; }
        if dx >= b0 { k := k - 1; continue; }
        break;
      }
    }

    /** divlarge: a in bx:ax, b in di:cx and on the stack. */
    method DivLarge()
      requires var b := Long(di, cx); 0 < b && b == Long(b16, b0)
      modifies this`ax, this`bx, this`cx, this`di, this`dx, this`si, this`cf
      ensures Divided(old(Long(bx, ax)), Long(b16, b0), Long(di, cx), Long(bx, ax))
    {
      hide Divided, Long, Scaled;
      ghost var a, b := Long(bx, ax), Long(di, cx);
      Compare(bx, ax, di, cx);
      if a < b { NoneDivided(a, b); }
      si := di;
      dx := cx;
      cx := 0;
      di := cx;
      LongZero(di, cx);
      if si > bx { return; }       // the quotient is 0
      if si == bx && dx > ax { return; }
      ghost var k := Loop1();
      Loop2(a, k);
    }

    /** Division of one word by another, after which the quotient fits a word. */
    method DivSmall()
      requires di == 0 && bx < cx
      modifies this`ax, this`bx, this`cx, this`dx
      ensures dx == old(dx) && Divided(old(Long(bx, ax)), old(Long(di, cx)), Long(di, cx), Long(bx, ax))
    {
      dx, bx := bx, dx;
      var n := Long(dx, ax);
      QuotientFits(dx, ax, cx);
      ax, dx := n / cx, n % cx;
      cx, ax := ax, cx;
      ax, bx := bx, ax;
      ax, dx := dx, ax;
      bx := di;
    }

    method NegRemainder()
      modifies this`ax, this`bx, this`cf
      ensures Long(bx, ax) == Mod(0 - old(Long(bx, ax)))
    {
      NegLong(bx, ax);
      var (y, d) := Neg(bx);
      bx, cf := y, d;
      var (x, c) := Neg(ax);
      ax, cf := x, c;
      var (z, e) := Sbb(bx, 0, cf);
      bx, cf := z, e;
    }

    method NegQuotient()
      modifies this`cx, this`di, this`cf
      ensures Long(di, cx) == Mod(0 - old(Long(di, cx)))
    {
      NegLong(di, cx);
      var (y, d) := Neg(di);
      di, cf := y, d;
      var (x, c) := Neg(cx);
      cx, cf := x, c;
      var (z, e) := Sbb(di, 0, cf);
      di, cf := z, e;
    }

    /** r = r - b, and q = -1 - q, which is the complement */
    method Complement()
      requires Long(bx, ax) < Long(b16, b0)
      modifies this`ax, this`bx, this`cx, this`di, this`cf
      ensures Long(bx, ax) == Mod(old(Long(bx, ax)) - Long(b16, b0))
      ensures Long(di, cx) == Mod(-1 - old(Long(di, cx)))
    {
      SubLong(bx, ax, b16, b0);
      var (x, c) := Sbb(ax, b0, false);
      ax, cf := x, c;
      var (y, d) := Sbb(bx, b16, cf);
      bx, cf := y, d;
      cx := Not(cx);
      di := Not(di);
    }

    /** zdivu1: puts the signs in dx back; the divisor's in the high byte, the dividend's in the low. */
    method FixSigns(ghost a: nat)
      requires var b := Long(b16, b0); 0 < b && Divided(a, b, Long(di, cx), Long(bx, ax))
      modifies this`ax, this`bx, this`cx, this`di, this`dx, this`cf
      ensures DividedSigned(Negated(a, Minus(old(dx) % 256)), Negated(Long(b16, b0), Minus(old(dx) / 256)),
                            Long(di, cx), Long(bx, ax))
    {
      hide FloorDiv, FloorMod, Divided, Mod, Minus, Long;
      ghost var q, r, b := Long(di, cx), Long(bx, ax), Long(b16, b0);
      FixedRemainder(a, b, q, r);
      SignsFixed(a, b, q, r, Minus(dx % 256), Minus(dx / 256));
      if Minus(dx / 256) {
        if Minus(dx % 256) { NegRemainder(); return; }
        dx := ax;
        LongZero(bx, ax);
        if dx == 0 && bx == 0 { NegQuotient(); return; }
        Complement();
        return;
      }
      if !Minus(dx % 256) { return; }
      dx := ax;
      LongZero(bx, ax);
      if dx == 0 && bx == 0 { NegQuotient(); return; }
      Complement();
      NegRemainder();
    }

    /** got_signs: divides a in bx:ax by b in di:cx. */
    method GotSigns()
      modifies this
      ensures DividedSigned(Negated(old(Long(bx, ax)), Minus(old(dx) % 256)),
                            Negated(old(Long(di, cx)), Minus(old(dx) / 256)), Long(di, cx), Long(bx, ax))
    {
      ghost var a := Long(bx, ax);
      b16, b0 := di, cx;
      if di == 0 {
        if cx == 0 {               // a divisor of 0
          if Minus(dx % 256) { NegRemainder(); }
          return;
        }
        if bx < cx {
          DivSmall();
          FixSigns(a);
          return;
        }
      }
      var signs := dx;
      DivLarge();
      dx := signs;
      FixSigns(a);
    }

    method Ludivmod()
      modifies this
      ensures Divided(old(Long(bx, ax)), old(Long(di, cx)), Long(di, cx), Long(bx, ax))
    {
      hide Divided, DividedSigned;
      dx := 0;
      ghost var a, b := Long(bx, ax), Long(di, cx);
      GotSigns();
      PlainDivided(a, b, Long(di, cx), Long(bx, ax));
    }

    /** The quotient is the one rounded down, modulo 2^32; the remainder is exact. */
    method Ldivmod()
      modifies this
      ensures var a, b := Signed(old(Long(bx, ax))), Signed(old(Long(di, cx)));
              if b == 0 then Long(di, cx) == 0 && Signed(Long(bx, ax)) == a
              else Long(di, cx) == Mod(FloorDiv(a, b)) && Signed(Long(bx, ax)) == FloorMod(a, b)
    {
      hide FloorDiv, FloorMod, Mod, Signed, Minus, Negated;
      ghost var a, b := Signed(Long(bx, ax)), Signed(Long(di, cx));
      SignOf(bx, ax);
      SignOf(di, cx);
      SignBytes(di, bx);
      dx := di;
      dx := dx / 256 * 256 + bx / 256;
      if Minus(di / 256) {
        NegQuotient();
      }
      if Minus(bx / 256) {
        NegRemainder();
      }
      assert Negated(Long(bx, ax), Minus(dx % 256)) == a;
      assert Negated(Long(di, cx), Minus(dx / 256)) == b;
      GotSigns();
      SignedMod(if b == 0 then a else FloorMod(a, b));
      if b != 0 { SignedRemainder(a, b); }
    }

    // ----- the routines that compilers call: the second operand is a long in memory

    method Ldivul(hi: word, lo: word)
      modifies this
      ensures var a, b := old(Long(bx, ax)), Long(hi, lo);
              Long(bx, ax) == if b == 0 then 0 else a / b
    {
      hide Divided;
      ghost var a, b := Long(bx, ax), Long(hi, lo);
      cx := lo;
      di := hi;
      Ludivmod();
      PlainQuotient(a, b, Long(di, cx), Long(bx, ax));
      ax, cx := cx, ax;
      bx, di := di, bx;
    }

    method Lmodul(hi: word, lo: word)
      modifies this
      ensures var a, b := old(Long(bx, ax)), Long(hi, lo);
              Long(bx, ax) == if b == 0 then a else a % b
    {
      hide Divided;
      ghost var a, b := Long(bx, ax), Long(hi, lo);
      cx := lo;
      di := hi;
      Ludivmod();
      PlainQuotient(a, b, Long(di, cx), Long(bx, ax));
    }

    method Ldivl(hi: word, lo: word)
      modifies this
      ensures var a, b := Signed(old(Long(bx, ax))), Signed(Long(hi, lo));
              Long(bx, ax) == if b == 0 then 0 else Mod(FloorDiv(a, b))
    {
      cx := lo;
      di := hi;
      Ldivmod();
      ax, cx := cx, ax;
      bx, di := di, bx;
    }

    method Lmodl(hi: word, lo: word)
      modifies this
      ensures var a, b := Signed(old(Long(bx, ax))), Signed(Long(hi, lo));
              Signed(Long(bx, ax)) == if b == 0 then a else FloorMod(a, b)
    {
      cx := lo;
      di := hi;
      Ldivmod();
    }

    /** The product modulo 2^32, signed or not. */
    method Lmulul(hi: word, lo: word)
      modifies this
      ensures Long(bx, ax) == Mod(old(Long(bx, ax)) * Long(hi, lo))
    {
      hide Mod, MulHigh, MulLow, Long;
      ProductWords(bx, ax, hi, lo);
      cx := ax;
      dx, ax := MulHigh(ax, hi), MulLow(ax, hi);
      ax, bx := bx, ax;
      dx, ax := MulHigh(ax, lo), MulLow(ax, lo);
      bx := Adc(bx, ax, false).0;
      ax := lo;
      dx, ax := MulHigh(ax, cx), MulLow(ax, cx);
      bx := Adc(bx, dx, false).0;
    }
  }

  /** js after a test of a byte */
  predicate Minus(b: int) { b >= 128 }

  function MulHigh(x: word, y: word): word {
    MulBound(x, y);
    x * y / 0x1_0000
  }

  function MulLow(x: word, y: word): word { x * y % 0x1_0000 }

  lemma MulBound(x: word, y: word)
    ensures 0 <= x * y < LONG
  {
    Times(0, x, y);
    Times(x, 0xFFFF, y);
  }

  lemma ProductWords(ah: word, al: word, bh: word, bl: word)
    ensures Mod(Long(ah, al) * Long(bh, bl))
            == Long((MulLow(al, bh) + MulLow(ah, bl) + MulHigh(bl, al)) % 0x1_0000, MulLow(bl, al))
  {
    hide Mod, Long;
    var ll, lh, hl, hh := bl * al, al * bh, ah * bl, ah * bh;
    LongTimes(ah, al, bh, bl);
    SumWords(ll, lh, hl, hh);
  }

  lemma LongTimes(ah: word, al: word, bh: word, bl: word)
    ensures Long(ah, al) * Long(bh, bl)
            == bl * al + 0x1_0000 * (al * bh) + 0x1_0000 * (ah * bl) + LONG * (ah * bh)
  {
    Expand(ah, al, bh, bl);
  }

  lemma SumWords(ll: nat, lh: nat, hl: nat, hh: nat)
    ensures var m := lh % 0x1_0000 + hl % 0x1_0000 + ll / 0x1_0000;
            Mod(ll + 0x1_0000 * lh + 0x1_0000 * hl + LONG * hh) == Long(m % 0x1_0000, ll % 0x1_0000)
  {
    hide Mod;
    WordSums(ll, lh, hl);
    var m := lh % 0x1_0000 + hl % 0x1_0000 + ll / 0x1_0000;
    ModShift(Long(m % 0x1_0000, ll % 0x1_0000), lh / 0x1_0000 + hl / 0x1_0000 + m / 0x1_0000 + hh);
    ModSmall(Long(m % 0x1_0000, ll % 0x1_0000));
  }

  lemma Expand(ah: int, al: int, bh: int, bl: int)
    ensures (ah * 0x1_0000 + al) * (bh * 0x1_0000 + bl)
            == bl * al + 0x1_0000 * (al * bh) + 0x1_0000 * (ah * bl) + LONG * (ah * bh)
  {
    var y := bh * 0x1_0000 + bl;
    assert (ah * 0x1_0000 + al) * y == (ah * 0x1_0000) * y + al * y;
    assert al * y == 0x1_0000 * (al * bh) + bl * al;
    assert ah * y == 0x1_0000 * (ah * bh) + ah * bl;
  }

  lemma WordSums(ll: nat, lh: nat, hl: nat)
    ensures var m := lh % 0x1_0000 + hl % 0x1_0000 + ll / 0x1_0000;
            ll + 0x1_0000 * lh + 0x1_0000 * hl
            == (m % 0x1_0000) * 0x1_0000 + ll % 0x1_0000 + LONG * (lh / 0x1_0000 + hl / 0x1_0000 + m / 0x1_0000)
  {
  }

  lemma ModShift(x: int, k: int)
    ensures Mod(x + LONG * k) == Mod(x)
  {
  }

  lemma ModSmall(x: nat)
    ensures x < LONG ==> Mod(x) == x
  {
  }

  lemma QuotientFits(hi: word, lo: word, c: word)
    requires hi < c
    ensures Long(hi, lo) / c < 0x1_0000
    ensures Long(hi, lo) == c * (Long(hi, lo) / c) + Long(hi, lo) % c
  {
    var n, q := Long(hi, lo), Long(hi, lo) / c;
    Quotient(n, c);
    if q >= 0x1_0000 {
      Times(0x1_0000, q, c);
    }
  }

  lemma Quotient(n: nat, c: nat)
    requires 0 < c
    ensures n == c * (n / c) + n % c
  {
  }

  lemma QuotientSmall(a: nat, b: nat)
    requires 0 < b
    ensures a / b <= a && 0 <= a % b < b
  {
    Quotient(a, b);
    AtLeast(a / b, b);
  }

  lemma FloorPlain(a: nat, b: nat) returns (q: nat, r: nat)
    requires 0 < b
    ensures q == FloorDiv(a, b) && r == FloorMod(a, b) && Divided(a, b, q, r) && q <= a && r < b
  {
    Quotient(a, b);
    QuotientSmall(a, b);
    q, r := a / b, a % b;
    FloorUnique(a, b, q, r);
  }

  lemma NoneDivided(a: nat, w: nat)
    requires a < w
    ensures Divided(a, w, 0, a)
  {
  }

  lemma PlainDivided(a: nat, b: nat, q: nat, r: nat)
    requires a < LONG && b < LONG && DividedSigned(a, b, q, r)
    ensures Divided(a, b, q, r)
  {
    hide FloorDiv, FloorMod, Mod;
    ModSmall(a);
    if b > 0 {
      var q', r' := FloorPlain(a, b);
      ModSmall(q');
      ModSmall(r');
    }
  }

  lemma PlainQuotient(a: nat, b: nat, q: nat, r: nat)
    ensures Divided(a, b, q, r) ==> if b == 0 then q == 0 && r == a else q == a / b && r == a % b
  {
    if b > 0 && Divided(a, b, q, r) {
      FloorUnique(a, b, q, r);
      Quotient(a, b);
    }
  }

  lemma Compare(hi: word, lo: word, hi': word, lo': word)
    ensures Long(hi, lo) < Long(hi', lo') <==> hi < hi' || (hi == hi' && lo < lo')
  {
  }

  lemma LongZero(hi: word, lo: word)
    ensures Long(hi, lo) == 0 <==> hi == 0 && lo == 0
  {
  }

  /** The remainder after subtracting the divisor and changing the sign. */
  lemma FixedRemainder(a: nat, b: nat, q: nat, r: nat)
    ensures Mod(0 - Mod(r - b)) == Mod(b - r)
    ensures q < LONG ==> Mod(q) == q
    ensures r < LONG ==> Mod(r) == r
    ensures Divided(a, b, q, r) && 0 < b ==> r < b
  {
    var m := Mod(r - b);
    assert r - b == LONG * ((r - b) / LONG) + m;
    ModShift(b - r, (r - b) / LONG);
  }

  lemma SignOf(hi: word, lo: word)
    ensures var x := Signed(Long(hi, lo));
            && -0x8000_0000 <= x < 0x8000_0000
            && (Minus(hi / 256) <==> x < 0)
            && Negated(if x < 0 then Mod(0 - Long(hi, lo)) else Long(hi, lo), Minus(hi / 256)) == x
            && (x == 0 <==> Long(hi, lo) == 0)
  {
  }

  lemma SignBytes(x: word, y: word)
    ensures var z := x / 256 * 256 + y / 256; z < 0x1_0000 && z / 256 == x / 256 && z % 256 == y / 256
  {
  }

  lemma SignedMod(x: int)
    ensures -0x8000_0000 <= x < 0x8000_0000 ==> Signed(Mod(x)) == x
  {
  }

  lemma SignedRemainder(a: int, b: int)
    requires -0x8000_0000 <= b < 0x8000_0000 && b != 0
    ensures -0x8000_0000 <= FloorMod(a, b) < 0x8000_0000
  {
    FloorBounds(a, b);
  }

  function Scaled(b: nat, k: nat): nat {
    if k == 0 then b else 2 * Scaled(b, k - 1)
  }

  lemma {:induction false} ScaledUp(b: nat, k: nat)
    ensures Scaled(b, k) >= b
    ensures if k == 0 then Scaled(b, k) == b else Scaled(b, k) == 2 * Scaled(b, k - 1) && Scaled(b, k - 1) >= b
  {
    if k > 0 { ScaledUp(b, k - 1); }
  }

  /** Signed product modulo 2^32 from the unsigned one. */
  lemma SignedProduct(x: nat, y: nat)
    requires x < LONG && y < LONG
    ensures Mod(x * y) == Mod(Signed(x) * Signed(y))
  {
    var k := (if x < 0x8000_0000 then 0 else y) + (if y < 0x8000_0000 then 0 else x)
             - (if x < 0x8000_0000 || y < 0x8000_0000 then 0 else LONG);
    assert x * y == Signed(x) * Signed(y) + LONG * k;
    ModShift(Signed(x) * Signed(y), k);
  }

  /** The one quotient that does not fit is that of the least number by -1. */
  lemma QuotientFitsSigned(a: int, b: int)
    requires -0x8000_0000 <= a < 0x8000_0000 && -0x8000_0000 <= b < 0x8000_0000 && b != 0
    ensures Signed(Mod(FloorDiv(a, b))) == FloorDiv(a, b) <==> !(a == -0x8000_0000 && b == -1)
  {
    if b != -1 {
      QuotientBound(a, b);
      SignedMod(FloorDiv(a, b));
    }
  }

  lemma FarBelow(b: int, q: int)
    requires q < 0 && b != 0 && b != -1
    ensures if b > 0 then b * q + b <= q + 1 else b * q + b >= 2 * (-q - 1)
  {
    var m := -q - 1;
    assert b * q + b == -(b * m);
    if b > 0 { AtLeast(m, b); } else { Times(b, -2, m); }
  }

  lemma QuotientBound(a: int, b: int)
    requires -0x8000_0000 <= a < 0x8000_0000 && b != 0 && b != -1
    ensures -0x8000_0000 <= FloorDiv(a, b) < 0x8000_0000
  {
    FloorBounds(a, b);
    var q, r := FloorDiv(a, b), FloorMod(a, b);
    assert a == b * q + r;
    hide FloorDiv, FloorMod;
    if q >= 0x8000_0000 {
      if b > 0 { AtLeast(q, b); } else { Times(b, -2, q); }
    } else if q < -0x8000_0000 {
      FarBelow(b, q);
    }
  }
}
