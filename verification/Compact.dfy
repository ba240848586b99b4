/**
 The compact form of 256-bit targets (src/arith_uint256.cpp:242-285, src/arith_uint256.h:80-87, 300-330): a size in
 bytes, a sign and a mantissa of 23 bits.
 */
module Compact {
  import opened Arithmetic
  import opened Limbs
  import opened ArithUint

  const SIGN := 0x80_0000
  const SIZE_UNIT := 0x100_0000

  function Mantissa(c: nat): nat {
    c % SIGN
  }

  function Size(c: nat): nat {
    c / SIZE_UNIT
  }

  predicate Signed(c: nat) {
    (c / SIGN) % 2 == 1
  }

  /** The number a compact form stands for: mantissa * 256^(size - 3), rounded down. */
  function Target(c: nat): int {
    if Size(c) <= 3 then Mantissa(c) / Pow2(8 * (3 - Size(c))) else Mantissa(c) * Pow2(8 * (Size(c) - 3))
  }

  /** Mantissa and size before the sign bit is kept free. */
  function Leading(v: nat): (int, nat) {
    var size := (Bits(v) + 7) / 8;
    (if size <= 3 then v * Pow2(8 * (3 - size)) else v / Pow2(8 * (size - 3)), size)
  }

  function Normal(v: nat): (int, nat) {
    var (m, size) := Leading(v);
    if m >= SIGN then (m / 256, size + 1) else (m, size)
  }

  /** The compact form of a number. */
  function CompactOf(v: nat, negative: bool): int {
    var (m, size) := Normal(v);
    m + size * SIZE_UNIT + if negative && m != 0 then SIGN else 0
  }

  // ---------- reading ----------

  /** The three tests for overflow are right. */
  lemma OverflowIff(c: nat)
    requires c < B && Size(c) > 3
    ensures Target(c) >= Pow2(256) <==>
            Mantissa(c) != 0 && (Size(c) > 34 || (Mantissa(c) > 0xff && Size(c) > 33) || (Mantissa(c) > 0xffff && Size(c) > 32))
  {
    hide Pow2;
    var w, e := Mantissa(c), 8 * (Size(c) - 3);
    SmallPowers();
    if Size(c) > 34 {
      PowMono(256, e);
      Threshold(w, 1, Pow2(e));
    } else if Size(c) == 34 {
      PowAdd(8, 248);
      Threshold(w, 0x100, Pow2(248));
    } else if Size(c) == 33 {
      PowAdd(16, 240);
      Threshold(w, 0x1_0000, Pow2(240));
    } else {
      PowAdd(24, 232);
      PowMono(e, 232);
      Threshold(w, 0x100_0000, Pow2(232));
      MulMono(Pow2(e), Pow2(232), w);
    }
  }

  lemma Threshold(w: int, t: int, p: int)
    requires p >= 1
    ensures w * p >= t * p <==> w >= t
  {
    if w >= t {
      MulMono(t, w, p);
    } else {
      MulMono(w + 1, t, p);
      Distribute(w, 1, p);
    }
  }

  lemma SmallPowers()
    ensures Pow2(0) == 1 && Pow2(8) == 0x100 && Pow2(15) == 0x8000 && Pow2(16) == 0x1_0000 && Pow2(23) == SIGN && Pow2(24) == SIZE_UNIT
  {
    assert Pow2(4) == 16;
    PowAdd(4, 4);
    PowAdd(8, 8);
    PowAdd(8, 16);
    assert Pow2(24) == 2 * Pow2(23) && Pow2(16) == 2 * Pow2(15);
  }

  lemma TargetZero(c: nat)
    requires Size(c) > 3
    ensures Target(c) >= 0 && (Target(c) == 0 <==> Mantissa(c) == 0)
  {
    var p := Pow2(8 * (Size(c) - 3));
    MulMono(0, Mantissa(c), p);
    if Mantissa(c) != 0 {
      MulMono(1, Mantissa(c), p);
    }
  }

  /** The result is exact but for a wrap at 2^256, which is reported. */
  method SetCompact(a: BaseUint, nCompact: nat) returns (fNegative: bool, fOverflow: bool)
    requires nCompact < B && a.pn.Length == 8
    modifies a.pn
    ensures Target(nCompact) >= 0 && a.Value() == Target(nCompact) % Pow2(256)
    ensures fOverflow <==> Target(nCompact) >= Pow2(256)
    ensures fNegative <==> Signed(nCompact) && Target(nCompact) != 0
  {
    hide Pow2, Val;
    var nSize := nCompact / SIZE_UNIT;
    var nWord := nCompact % SIGN;
    if nSize <= 3 {
      SmallTarget(nCompact);
      nWord := nWord / Pow2(8 * (3 - nSize));
      a.Assign64(nWord);
    } else {
      a.Assign64(nWord);
      a.ShiftLeft(8 * (nSize - 3));
      TargetZero(nCompact);
      OverflowIff(nCompact);
    }
    fNegative := nWord != 0 && (nCompact / SIGN) % 2 == 1;
    fOverflow := nWord != 0 && (nSize > 34 || (nWord > 0xff && nSize > 33) || (nWord > 0xffff && nSize > 32));
  }

  lemma SmallTarget(c: nat)
    requires Size(c) <= 3
    ensures 0 <= Target(c) < SIGN && Target(c) % Pow2(256) == Target(c) && Target(c) < Pow2(256)
  {
    var p := Pow2(8 * (3 - Size(c)));
    SmallPowers();
    PowMono(23, 256);
    hide Pow2;
    DivSmaller(Mantissa(c), p);
    ModIs(Target(c), Target(c), 0, Pow2(256));
  }

  // ---------- writing ----------

  /** A number has 17 to 24 leading bits. */
  lemma LeadingRange(v: nat)
    ensures v > 0 ==> Pow2(16) <= Leading(v).0 < Pow2(24) && Leading(v).1 >= 1
    ensures v == 0 ==> Leading(v) == (0, 0)
  {
    hide Pow2, Bits;
    BitsBound(v);
    if v == 0 {
      NoBits();
    } else {
      var size := (Bits(v) + 7) / 8;
      PowMono(8 * (size - 1), Bits(v) - 1);
      PowMono(Bits(v), 8 * size);
      if size <= 3 {
        var e := 8 * (3 - size);
        PowAdd(8 * (size - 1), e);
        PowAdd(8 * size, e);
        assert 8 * (size - 1) + e == 16 && 8 * size + e == 24;
        MulMono(Pow2(8 * (size - 1)), v, Pow2(e));
        MulMono(v + 1, Pow2(8 * size), Pow2(e));
        Distribute(v, 1, Pow2(e));
      } else {
        var e := 8 * (size - 3);
        PowAdd(16, e);
        PowAdd(24, e);
        assert 16 + e == 8 * (size - 1) && 24 + e == 8 * size;
        QuotientRange(v, Pow2(16), Pow2(24), Pow2(e));
      }
    }
  }

  lemma QuotientRange(v: int, lo: int, hi: int, p: int)
    requires p >= 1 && lo * p <= v < hi * p
    ensures lo <= v / p < hi
  {
    var q := v / p;
    if q < lo {
      MulMono(q + 1, lo, p);
      Distribute(q, 1, p);
    }
    if q >= hi {
      MulMono(hi, q, p);
    }
  }

  lemma NormalRange(v: nat)
    ensures v > 0 ==> Pow2(15) <= Normal(v).0 < SIGN
    ensures v == 0 ==> Normal(v) == (0, 0)
  {
    LeadingRange(v);
    SmallPowers();
    hide Pow2, Leading;
  }

  /** What the parts of a compact form are. */
  lemma Parts(v: nat, negative: bool)
    ensures var c := CompactOf(v, negative);
            && c >= 0 && Mantissa(c) == Normal(v).0 && Size(c) == Normal(v).1
            && (Signed(c) <==> negative && v != 0)
  {
    NormalRange(v);
    SmallPowers();
    hide Pow2, Normal;
    var (m, size) := Normal(v);
    var c := CompactOf(v, negative);
    assert c == size * SIZE_UNIT + (c - size * SIZE_UNIT) && 0 <= c - size * SIZE_UNIT < SIZE_UNIT;
    DivModIs(c, size, c - size * SIZE_UNIT, SIZE_UNIT);
    var s := if negative && m != 0 then 1 else 0;
    DivModIs(c, 2 * size + s, m, SIGN);
  }

  /** Below a byte of precision nothing is lost. */
  lemma SmallExact(v: nat, negative: bool)
    requires Normal(v).1 <= 3
    ensures CompactOf(v, negative) >= 0 && Target(CompactOf(v, negative)) == v
  {
    Parts(v, negative);
    LeadingRange(v);
    var size := Leading(v).1;
    var e := 8 * (3 - size);
    if Leading(v).0 >= SIGN {
      PowAdd(e - 8, 8);
      SmallPowers();
      hide Pow2, Bits;
      Mul3(v, Pow2(e - 8), 256);
      DivModIs(v * Pow2(e), v * Pow2(e - 8), 0, 256);
      DivModIs(v * Pow2(e - 8), v, 0, Pow2(e - 8));
    } else {
      hide Pow2, Bits;
      DivModIs(v * Pow2(e), v, 0, Pow2(e));
    }
  }

  /** Above it, the lower bytes are cut off. */
  lemma LargeCut(v: nat, negative: bool)
    requires Normal(v).1 > 3
    ensures var (m, size) := Normal(v); m == v / Pow2(8 * (size - 3)) && CompactOf(v, negative) >= 0 && Target(CompactOf(v, negative)) == m * Pow2(8 * (size - 3))
  {
    Parts(v, negative);
    var size := Leading(v).1;
    SmallPowers();
    if Leading(v).0 >= SIGN {
      if size == 3 {
        assert Leading(v).0 == v * Pow2(0) == v;
      } else {
        var e := 8 * (size - 3);
        PowAdd(e, 8);
        hide Pow2, Bits;
        DivTwice(v, Pow2(e), 256);
      }
    }
  }

  lemma DivTwice(v: nat, p: int, q: int)
    requires p >= 1 && q >= 1
    ensures p * q >= 1 && (v / p) / q == v / (p * q)
  {
    MulMono(1, p, q);
    var a := v / p;
    var b := a / q;
    Distribute(b * q, a % q, p);
    Mul3(b, q, p);
    Mul3(b, p, q);
    assert v == b * (p * q) + ((a % q) * p + v % p);
    MulMono(a % q + 1, q, p);
    MulMono(0, a % q, p);
    Distribute(a % q, 1, p);
    DivModIs(v, b, (a % q) * p + v % p, p * q);
  }

  /** Writing and reading a target rounds it down, by less than one part in 2^15. */
  lemma RoundTrip(v: nat, negative: bool)
    ensures CompactOf(v, negative) >= 0
    ensures var t := Target(CompactOf(v, negative)); 0 <= t <= v && (v > 0 ==> (v - t) * Pow2(15) < v)
  {
    hide Pow2, Normal, CompactOf, Target;
    NormalRange(v);
    var (m, size) := Normal(v);
    if size <= 3 {
      SmallExact(v, negative);
    } else {
      LargeCut(v, negative);
      SmallPowers();
      var p := Pow2(8 * (size - 3));
      assert v == m * p + v % p;
      MulMono(Pow2(15), m, p);
      Loss(v % p, p, Pow2(15));
    }
  }

  lemma Loss(r: int, p: int, k: int)
    requires 0 <= r < p && k >= 1
    ensures r * k < k * p
  {
    MulMono(r + 1, p, k);
    Distribute(r, 1, k);
  }

  /** A target that was written is written the same way again. */
  lemma Idempotent(v: nat, negative: bool)
    ensures CompactOf(v, negative) >= 0 && Target(CompactOf(v, negative)) >= 0
    ensures CompactOf(Target(CompactOf(v, negative)), negative) == CompactOf(v, negative)
  {
    RoundTrip(v, negative);
    NormalRange(v);
    var (m, size) := Normal(v);
    if size <= 3 {
      SmallExact(v, negative);
    } else {
      LargeCut(v, negative);
      SmallPowers();
      SameNormal(m, size);
    }
  }

  /** A normal mantissa of more than three bytes' weight is its own normal form. */
  lemma SameNormal(m: nat, size: nat)
    requires size > 3 && 0x8000 <= m < SIGN
    ensures m * Pow2(8 * (size - 3)) >= 0 && Normal(m * Pow2(8 * (size - 3))) == (m, size)
  {
    hide Pow2, Bits;
    var k := size - 3;
    var y := m * Pow2(8 * k);
    SmallPowers();
    BitsShift(m, 8 * k);
    var n := Bits(m);
    BitsRange(m);
    if n == 16 {
      assert (Bits(y) + 7) / 8 == size - 1;
      PowAdd(8 * (k - 1), 8);
      Mul3(m, Pow2(8 * (k - 1)), 256);
      assert y == (m * 256) * Pow2(8 * (k - 1));
      DivModIs(y, m * 256, 0, Pow2(8 * (k - 1)));
    } else {
      assert (Bits(y) + 7) / 8 == size;
      DivModIs(y, m, 0, Pow2(8 * k));
    }
  }

  lemma BitsRange(m: nat)
    requires 0x8000 <= m < SIGN
    ensures 16 <= Bits(m) <= 23 && (Bits(m) == 16 <==> m < 0x1_0000)
  {
    hide Pow2, Bits;
    BitsBound(m);
    SmallPowers();
    var n := Bits(m);
    if n < 16 {
      PowMono(n, 15);
    } else if n == 16 {
    } else {
      PowMono(16, n - 1);
      if n > 23 {
        PowMono(23, n - 1);
      }
    }
  }

  lemma BitsShift(m: nat, e: nat)
    requires m > 0
    ensures m * Pow2(e) >= 0 && Bits(m * Pow2(e)) == Bits(m) + e
  {
    hide Pow2, Bits;
    BitsBound(m);
    var n := Bits(m);
    PowAdd(n, e);
    PowAdd(n - 1, e);
    MulMono(0, m, Pow2(e));
    MulMono(Pow2(n - 1), m, Pow2(e));
    MulMono(m + 1, Pow2(n), Pow2(e));
    Distribute(m, 1, Pow2(e));
    BitsIs(m * Pow2(e), n + e);
  }

  // ---------- the method ----------

  function High(a: nat, s: nat): nat {
    DivSmaller(a, Pow2(s));
    a / Pow2(s)
  }

  /** Or works on high and low bits apart. */
  lemma {:induction false} OrSplit(a: nat, b: nat, s: nat)
    ensures BitOr(a, b) == BitOr(High(a, s), High(b, s)) * Pow2(s) + BitOr(a % Pow2(s), b % Pow2(s))
  {
    if s > 0 {
      var p := Pow2(s - 1);
      OrSplit(a / 2, b / 2, s - 1);
      HalfParts(a, p);
      HalfParts(b, p);
      assert BitOr(a, b) == 2 * BitOr(a / 2, b / 2) + if a % 2 == 1 || b % 2 == 1 then 1 else 0;
      var x, y := a % Pow2(s), b % Pow2(s);
      assert BitOr(x, y) == 2 * BitOr(x / 2, y / 2) + if x % 2 == 1 || y % 2 == 1 then 1 else 0;
      Mul3(2, BitOr(a / 2 / p, b / 2 / p), p);
      Mul3(BitOr(a / 2 / p, b / 2 / p), 2, p);
    } else {
      assert BitOr(0, 0) == 0;
    }
  }

  lemma HalfParts(a: nat, p: int)
    requires p >= 1
    ensures a / (2 * p) == a / 2 / p && a % (2 * p) / 2 == a / 2 % p && a % (2 * p) % 2 == a % 2
    ensures a / (2 * p) >= 0 && a / 2 / p >= 0
  {
    var q, r := a / 2 / p, a / 2 % p;
    assert a / 2 == q * p + r;
    Mul3(q, 2, p);
    assert a == q * (2 * p) + (2 * r + a % 2);
    DivModIs(a, q, 2 * r + a % 2, 2 * p);
    DivSmaller(a / 2, p);
  }

  lemma Assemble(m: nat, size: nat, sign: nat)
    requires m < SIGN && (sign == 0 || sign == SIGN)
    ensures BitOr(m, size * SIZE_UNIT) == m + size * SIZE_UNIT
    ensures BitOr(m + size * SIZE_UNIT, sign) == m + size * SIZE_UNIT + sign
  {
    hide BitOr;
    SmallPowers();
    hide Pow2;
    DivModIs(size * SIZE_UNIT, size, 0, SIZE_UNIT);
    OrIsPlus(size * SIZE_UNIT, m, 24);
    OrSym(size * SIZE_UNIT, m);
    var c := m + size * SIZE_UNIT;
    DivModIs(c, size, m, SIZE_UNIT);
    DivModIs(sign, 0, sign, SIZE_UNIT);
    OrSplit(c, sign, 24);
    OrZero(size);
    if sign == 0 {
      OrZero(m);
    } else {
      OrIsPlus(SIGN, m, 23);
      OrSym(SIGN, m);
    }
  }

  /** A leading mantissa fits into 32 bits and its top bit says whether it must give way. */
  lemma LeadingFits(v: nat)
    requires Bits(v) <= 256
    ensures 0 <= Leading(v).0 < SIZE_UNIT && Leading(v).1 <= 32
    ensures (Leading(v).0 / SIGN) % 2 == 1 <==> Leading(v).0 >= SIGN
    ensures Leading(v).1 <= 3 ==> v < SIZE_UNIT
  {
    LeadingRange(v);
    SmallPowers();
    BitsBound(v);
    if Leading(v).1 <= 3 {
      PowMono(Bits(v), 24);
    }
    hide Pow2, Leading;
    HalfOf(Leading(v).0, SIGN);
  }

  lemma LeadingIs(v: nat)
    ensures var size := (Bits(v) + 7) / 8;
            && Leading(v).1 == size
            && Leading(v).0 == if size <= 3 then v * Pow2(8 * (3 - size)) else v / Pow2(8 * (size - 3))
  {
    hide Pow2, Bits;
  }

  lemma Unwrapped(v: nat)
    requires Bits(v) <= 256
    ensures var size := (Bits(v) + 7) / 8;
            && Leading(v).0 % MAX64 % B == Leading(v).0 && Leading(v).1 == size
            && (if size <= 3 then v % MAX64 == v && Leading(v).0 == v * Pow2(8 * (3 - size)) else Leading(v).0 == v / Pow2(8 * (size - 3)))
  {
    hide Pow2, Bits, Leading;
    LeadingIs(v);
    LeadingFits(v);
    if Leading(v).1 <= 3 {
      ModIs(v, v, 0, MAX64);
    }
    var x := Leading(v).0;
    ModIs(x, x, 0, MAX64);
    ModIs(x, x, 0, B);
  }

  /** The leading three bytes and the size in bytes. */
  method LeadingBytes(a: BaseUint) returns (nCompact: nat, nSize: nat)
    requires a.pn.Length == 8
    ensures (nCompact, nSize) == Leading(a.Value())
  {
    hide Pow2, Val, Bits, BitOr;
    ghost var v := a.Value();
    var bits := a.NumBits();
    nSize := (bits + 7) / 8;
    Unwrapped(v);
    var low;
    if nSize <= 3 {
      low := a.GetLow64();
      low := low * Pow2(8 * (3 - nSize)) % MAX64;
    } else {
      var bn := new BaseUint.Copy(a);
      bn.ShiftRight(8 * (nSize - 3));
      low := bn.GetLow64();
    }
    nCompact := low % B;
  }

  method GetCompact(a: BaseUint, fNegative: bool) returns (nCompact: nat)
    requires a.pn.Length == 8
    ensures nCompact == CompactOf(a.Value(), fNegative)
  {
    hide Pow2, Val, Bits, BitOr, Leading;
    ghost var v := a.Value();
    var nSize;
    nCompact, nSize := LeadingBytes(a);
    BitsOfLimbs(a);
    LeadingFits(v);
    // The top bit of the mantissa denotes the sign.
    if nCompact / SIGN % 2 == 1 {
      nCompact := nCompact / 256;
      nSize := nSize + 1;
    }
    assert nCompact < SIGN;
    assert nSize < 256;
    ghost var m := nCompact;
    Assemble(m, nSize, 0);
    Assemble(m, nSize, SIGN);
    nCompact := BitOr(nCompact, nSize * SIZE_UNIT);
    DivModIs(nCompact, 2 * nSize, m, SIGN);
    nCompact := BitOr(nCompact, if fNegative && nCompact % SIGN != 0 then SIGN else 0);
  }

  lemma BitsOfLimbs(a: BaseUint)
    requires a.pn.Length == 8
    ensures Bits(a.Value()) <= 256
  {
    hide Pow2, Bits;
    BitsBound(a.Value());
    NoBits();
    assert a.Value() < a.Modulus() == Pow2(256);
    if Bits(a.Value()) > 256 {
      PowMono(256, Bits(a.Value()) - 1);
    }
  }
}
