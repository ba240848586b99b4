/**
 Numbers in limbs of 32 bits: what the limb loops of src/arith_uint256.cpp and src/arith_uint256.h are measured by.
 */
module Limbs {
  import opened Arithmetic

  const B := 0x1_0000_0000

  type Limb = x: int | 0 <= x < B

  /** The number that the first n limbs stand for, the least one first. */
  function Val(s: seq<Limb>, n: nat): nat
    requires n <= |s|
  {
    if n == 0 then 0 else
      MulMono(0, s[n - 1], Pow2(32 * (n - 1)));
      Val(s, n - 1) + s[n - 1] * Pow2(32 * (n - 1))
  }

  // ---------- powers ----------

  lemma {:induction false} PowAdd(a: nat, b: nat)
    ensures Pow2(a + b) == Pow2(a) * Pow2(b)
  {
    if b > 0 {
      PowAdd(a, b - 1);
      assert Pow2(a + b) == 2 * Pow2(a + (b - 1));
      assert 2 * (Pow2(a) * Pow2(b - 1)) == Pow2(a) * (2 * Pow2(b - 1));
    }
  }

  lemma Pow32()
    ensures Pow2(32) == B
  {
    assert Pow2(4) == 16;
    PowAdd(4, 4);
    PowAdd(8, 8);
    PowAdd(16, 16);
  }

  lemma PowLimb(n: nat)
    ensures Pow2(32 * (n + 1)) == Pow2(32 * n) * B
  {
    PowAdd(32 * n, 32);
    Pow32();
  }

  lemma {:induction false} PowMono(a: nat, b: nat)
    requires a <= b
    ensures Pow2(a) <= Pow2(b)
  {
    if a < b {
      PowMono(a, b - 1);
    }
  }

  // ---------- arithmetic ----------

  /** A two-limb number at a place is its low limb there and its high limb at the next place. */
  lemma Split(n: int, p: int)
    ensures n * p == (n % B) * p + (n / B) * (p * B)
  {
    assert n == (n % B) + (n / B) * B;
    Distribute(n % B, (n / B) * B, p);
    Mul3(n / B, B, p);
    Mul3(n / B, p, B);
  }

  lemma ModIs(x: int, v: int, q: int, m: int)
    requires v + q * m == x && 0 <= v < m
    ensures x % m == v
  {
    DivModIs(x, q, v, m);
  }

  /** A limb is a high part and a low part. */
  lemma SplitLimb(x: int, s: nat)
    requires 0 <= x < B && s <= 32
    ensures Pow2(s) * Pow2(32 - s) == B
    ensures x * Pow2(s) == (x * Pow2(s)) % B + (x / Pow2(32 - s)) * B
    ensures (x * Pow2(s)) % B == (x % Pow2(32 - s)) * Pow2(s)
    ensures 0 <= x / Pow2(32 - s) < Pow2(s)
  {
    PowAdd(s, 32 - s);
    Pow32();
    hide Pow2;
    SplitFactor(x, Pow2(s), Pow2(32 - s));
  }

  lemma SplitFactor(x: int, p: int, h: int)
    requires 0 <= x < B && p >= 1 && h >= 1 && p * h == B
    ensures x * p == (x * p) % B + (x / h) * B
    ensures (x * p) % B == (x % h) * p
    ensures 0 <= x / h < p
  {
    var hi, lo := x / h, x % h;
    assert x * p == hi * B + lo * p by {
      Distribute(hi * h, lo, p);
      Mul3(hi, h, p);
    }
    assert 0 <= lo * p < B by {
      MulMono(lo + 1, h, p);
      Distribute(lo, 1, p);
      MulMono(0, lo, p);
    }
    DivModIs(x * p, hi, lo * p, B);
    assert hi < p by {
      if hi >= p {
        MulMono(p, hi, h);
      }
    }
  }

  // ---------- bits ----------

  function BitOr(a: nat, b: nat): nat {
    if a == 0 && b == 0 then 0 else 2 * BitOr(a / 2, b / 2) + if a % 2 == 1 || b % 2 == 1 then 1 else 0
  }

  /** Numbers without a common bit: or is plus. */
  lemma {:induction false} OrIsPlus(a: nat, b: nat, s: nat)
    requires a % Pow2(s) == 0 && b < Pow2(s)
    ensures BitOr(a, b) == a + b
  {
    if s == 0 {
      OrZero(a);
    } else {
      var p := Pow2(s - 1);
      var q := a / Pow2(s);
      assert a == q * Pow2(s);
      Mul3(q, 2, p);
      assert a == 2 * (q * p);
      DivModIs(a / 2, q, 0, p);
      OrIsPlus(a / 2, b / 2, s - 1);
    }
  }

  lemma {:induction false} OrZero(a: nat)
    ensures BitOr(a, 0) == a
  {
    if a > 0 {
      OrZero(a / 2);
    }
  }

  lemma OrSym(a: nat, b: nat)
    ensures BitOr(a, b) == BitOr(b, a)
  {
  }

  // ---------- values ----------

  lemma DigitBound(v: int, x: int, p: int)
    requires 0 <= v < p && 0 <= x < B
    ensures 0 <= v + x * p < p * B
  {
    MulMono(x + 1, B, p);
    MulMono(0, x, p);
    Distribute(x, 1, p);
  }

  lemma {:induction false} ValBound(s: seq<Limb>, n: nat)
    requires n <= |s|
    ensures 0 <= Val(s, n) < Pow2(32 * n)
  {
    if n > 0 {
      ValBound(s, n - 1);
      PowLimb(n - 1);
      DigitBound(Val(s, n - 1), s[n - 1], Pow2(32 * (n - 1)));
    }
  }

  lemma ValStep(s: seq<Limb>, n: nat)
    requires n < |s|
    ensures Val(s, n + 1) == Val(s, n) + s[n] * Pow2(32 * n)
  {
  }

  lemma ValNone(s: seq<Limb>)
    ensures Val(s, 0) == 0 && Pow2(0) == 1
  {
  }

  lemma {:induction false} ValSame(s: seq<Limb>, t: seq<Limb>, n: nat)
    requires n <= |s| && n <= |t| && forall i | 0 <= i < n :: s[i] == t[i]
    ensures Val(s, n) == Val(t, n)
  {
    if n > 0 {
      ValSame(s, t, n - 1);
    }
  }

  lemma {:induction false} ValZero(s: seq<Limb>, n: nat)
    requires n <= |s|
    ensures Val(s, n) == 0 <==> forall i | 0 <= i < n :: s[i] == 0
  {
    if n > 0 {
      ValZero(s, n - 1);
      if s[n - 1] != 0 {
        MulMono(1, s[n - 1], Pow2(32 * (n - 1)));
      }
    }
  }

  lemma {:induction false} ValSet(s: seq<Limb>, n: nat, k: nat, v: Limb)
    requires k < n <= |s|
    ensures Val(s[k := v], n) == Val(s, n) + (v - s[k]) * Pow2(32 * k)
  {
    if k == n - 1 {
      ValSame(s, s[k := v], n - 1);
      Distribute(v, s[k], Pow2(32 * k));
    } else {
      ValSet(s, n - 1, k, v);
    }
  }

  lemma SplitSum(p: int, v: int, x: int, q: int)
    ensures p * v + x * (p * q) == p * (v + x * q)
  {
    Mul3(x, p, q);
    Mul3(p, x, q);
  }

  /** Limbs k.. and the limbs below them. */
  lemma {:induction false} ValSplit(s: seq<Limb>, k: nat, n: nat)
    requires k + n <= |s|
    ensures Val(s, k + n) == Val(s, k) + Pow2(32 * k) * Val(s[k..], n)
  {
    if n > 0 {
      ValSplit(s, k, n - 1);
      PowAdd(32 * k, 32 * (n - 1));
      assert 32 * k + 32 * (n - 1) == 32 * (k + n - 1);
      SplitSum(Pow2(32 * k), Val(s[k..], n - 1), s[k + n - 1], Pow2(32 * (n - 1)));
    }
  }

  // ---------- shifts ----------

  lemma DivSmaller(x: int, p: int)
    requires 0 <= x && p >= 1
    ensures 0 <= x / p <= x
  {
    MulMono(1, p, x / p);
  }

  /** x >> n in 32 bits. */
  function Shr(x: Limb, n: nat): Limb {
    DivSmaller(x, Pow2(n));
    x / Pow2(n)
  }

  /** x << n in 32 bits. */
  function Shl(x: Limb, n: nat): Limb {
    (x * Pow2(n)) % B
  }

  /** What limb q - 1 sends up into limb q when limbs are shifted by sh bits. */
  function Up(s: seq<Limb>, q: nat, sh: nat): Limb
    requires q <= |s| && sh < 32
  {
    if q == 0 then 0 else Shr(s[q - 1], 32 - sh)
  }

  function LeftLimb(s: seq<Limb>, q: nat, sh: nat): nat
    requires q < |s| && sh < 32
  {
    Shl(s[q], sh) + Up(s, q, sh)
  }

  lemma LeftLimbFits(s: seq<Limb>, q: nat, sh: nat)
    requires q < |s| && sh < 32
    ensures 0 <= LeftLimb(s, q, sh) < B && 0 <= Up(s, q, sh) < Pow2(sh) <= B
    ensures LeftLimb(s, q, sh) == BitOr(Up(s, q, sh), Shl(s[q], sh))
    ensures Up(s, q + 1, sh) == Shr(s[q], 32 - sh) < B
    ensures sh == 0 ==> Up(s, q + 1, sh) == 0
  {
    SplitLimb(s[q], sh);
    if q > 0 {
      SplitLimb(s[q - 1], sh);
    }
    Pow32();
    PowMono(sh, 32);
    hide Pow2, BitOr;
    var h, l := Shl(s[q], sh), s[q] % Pow2(32 - sh);
    DivModIs(h, l, 0, Pow2(sh));
    OrIsPlus(h, Up(s, q, sh), sh);
    OrSym(h, Up(s, q, sh));
    FitsBelow(l, Up(s, q, sh), Pow2(sh), Pow2(32 - sh));
    if sh == 0 {
      DivModIs(s[q], 0, s[q], B);
    }
  }

  lemma FitsBelow(l: int, u: int, p: int, h: int)
    requires 0 <= l < h && 0 <= u < p && p * h == B
    ensures 0 <= l * p + u < B
  {
    MulMono(l + 1, h, p);
    MulMono(0, l, p);
    Distribute(l, 1, p);
  }

  lemma {:induction false} LeftSum(s: seq<Limb>, u: seq<Limb>, n: nat, sh: nat)
    requires n <= |s| && n <= |u| && sh < 32 && forall q | 0 <= q < n :: u[q] == LeftLimb(s, q, sh)
    ensures Val(u, n) + Up(s, n, sh) * Pow2(32 * n) == Pow2(sh) * Val(s, n)
  {
    if n > 0 {
      LeftSum(s, u, n - 1, sh);
      SplitLimb(s[n - 1], sh);
      PowLimb(n - 1);
      var x := s[n - 1];
      hide Pow2;
      LeftDigit(Val(u, n - 1), Up(s, n - 1, sh), Pow2(32 * (n - 1)), Pow2(sh), Val(s, n - 1), x, (x * Pow2(sh)) % B, x / Pow2(32 - sh));
    }
  }

  lemma LeftDigit(v: int, up: int, p: int, m: int, w: int, x: int, lo: int, hi: int)
    requires v + up * p == m * w && x * m == lo + hi * B
    ensures v + (lo + up) * p + hi * (p * B) == m * (w + x * p)
  {
    Distribute(lo, up, p);
    Distribute(w, x * p, m);
    assert m * (x * p) == (lo + hi * B) * p by { Mul3(x, p, m); Mul3(x, m, p); }
    Distribute(lo, hi * B, p);
    Mul3(hi, B, p);
    Mul3(hi, p, B);
  }

  /** Limbs shifted left by 32 k + sh bits, those beyond the width dropped. */
  lemma LeftValue(s: seq<Limb>, t: seq<Limb>, k: nat, sh: nat)
    requires |t| == |s| && sh < 32
    requires forall p | 0 <= p < |t| :: t[p] == if p < k then 0 else LeftLimb(s, p - k, sh)
    ensures Val(t, |t|) == (Val(s, |s|) * Pow2(32 * k + sh)) % Pow2(32 * |s|)
  {
    hide Pow2, Val, LeftLimb, Up;
    var w := |s|;
    if k <= w {
      var n := w - k;
      ValSplit(t, k, n);
      ValZero(t, k);
      ValSplit(s, n, k);
      LeftSum(s, t[k..], n, sh);
      PowAdd(32 * k, 32 * n);
      PowAdd(32 * k, sh);
      LeftEnd(Val(t, w), Pow2(32 * k), Val(t[k..], n), Up(s, n, sh), Pow2(32 * n), Pow2(sh), Val(s, n), Val(s[n..], k));
      ValBound(t, w);
      ModIs(Val(s, w) * Pow2(32 * k + sh), Val(t, w), Up(s, n, sh) + Pow2(sh) * Val(s[n..], k), Pow2(32 * w));
    } else {
      ValZero(t, w);
      PowAdd(32 * w, 32 * (k - w) + sh);
      assert 32 * w + (32 * (k - w) + sh) == 32 * k + sh;
      Mul3(Val(s, w), Pow2(32 * w), Pow2(32 * (k - w) + sh));
      ModIs(Val(s, w) * Pow2(32 * k + sh), 0, Val(s, w) * Pow2(32 * (k - w) + sh), Pow2(32 * w));
    }
  }

  lemma LeftEnd(v: int, k: int, u: int, up: int, n: int, m: int, lo: int, hi: int)
    requires v == k * u && u + up * n == m * lo
    ensures v + (up + m * hi) * (k * n) == (lo + n * hi) * (k * m)
  {
    assert (up + m * hi) * (k * n) == up * (k * n) + (m * hi) * (k * n) by { Distribute(up, m * hi, k * n); }
    assert up * (k * n) == k * (up * n) by { Mul3(up, k, n); Mul3(k, up, n); }
    assert k * u + k * (up * n) == k * (m * lo) by { Distribute(u, up * n, k); }
    assert (lo + n * hi) * (k * m) == lo * (k * m) + (n * hi) * (k * m) by { Distribute(lo, n * hi, k * m); }
    assert lo * (k * m) == k * (m * lo) by { Mul3(lo, k, m); Mul3(k, lo, m); }
    assert (m * hi) * (k * n) == (n * hi) * (k * m) by {
      Mul3(m, hi, k * n);
      Mul3(n, hi, k * m);
      Mul3(hi, m, k * n);
      Mul3(hi, n, k * m);
      Mul3(m, k, n);
      Mul3(n, k, m);
    }
  }

  /** What a limb keeps, and what the next limb sends down into it, when limbs are shifted right by sh bits. */
  function Down(s: seq<Limb>, q: nat, sh: nat): Limb
    requires sh < 32
  {
    if q < |s| then Shl(s[q], 32 - sh) else 0
  }

  function RightLimb(s: seq<Limb>, q: nat, sh: nat): nat
    requires q < |s| && sh < 32
  {
    Shr(s[q], sh) + Down(s, q + 1, sh)
  }

  lemma RightLimbFits(s: seq<Limb>, q: nat, sh: nat)
    requires q < |s| && sh < 32
    ensures 0 <= RightLimb(s, q, sh) < B && Shr(s[q], sh) < B
    ensures RightLimb(s, q, sh) == BitOr(Shr(s[q], sh), Down(s, q + 1, sh))
    ensures sh == 0 ==> Down(s, q, sh) == 0
  {
    SplitLimb(s[q], 32 - sh);
    if sh == 0 {
      Pow32();
      ModIs(s[q] * B, 0, s[q], B);
    }
    if q + 1 < |s| {
      SplitLimb(s[q + 1], 32 - sh);
      hide Pow2, BitOr;
      var h := Shl(s[q + 1], 32 - sh);
      DivModIs(h, s[q + 1] % Pow2(sh), 0, Pow2(32 - sh));
      OrIsPlus(h, Shr(s[q], sh), 32 - sh);
      OrSym(h, Shr(s[q], sh));
      FitsBelow(s[q + 1] % Pow2(sh), Shr(s[q], sh), Pow2(32 - sh), Pow2(sh));
    } else {
      OrZero(Shr(s[q], sh));
    }
  }

  function Low(s: seq<Limb>, q: nat, sh: nat): int {
    if q < |s| then s[q] % Pow2(sh) else 0
  }

  lemma {:induction false} RightSum(s: seq<Limb>, t: seq<Limb>, n: nat, sh: nat)
    requires n <= |s| && n <= |t| && sh < 32 && forall q | 0 <= q < n :: t[q] == RightLimb(s, q, sh)
    ensures Pow2(sh) * Val(t, n) + Low(s, 0, sh) == Val(s, n) + Low(s, n, sh) * Pow2(32 * n)
  {
    hide Pow2, Val, Low, RightLimb;
    if n > 0 {
      RightSum(s, t, n - 1, sh);
      PowLimb(n - 1);
      RightLimbIs(s, n - 1, sh);
      ValStep(s, n - 1);
      ValStep(t, n - 1);
      RightDigit(Pow2(sh), Val(t, n - 1), Low(s, 0, sh), Val(s, n - 1), Low(s, n - 1, sh), Pow2(32 * (n - 1)), s[n - 1], Low(s, n, sh), Pow2(32 - sh));
    } else {
      ValNone(s);
      ValNone(t);
    }
  }

  lemma RightLimbIs(s: seq<Limb>, q: nat, sh: nat)
    requires q < |s| && sh < 32
    ensures RightLimb(s, q, sh) == s[q] / Pow2(sh) + Low(s, q + 1, sh) * Pow2(32 - sh)
    ensures Low(s, q, sh) == s[q] % Pow2(sh) && Pow2(sh) * Pow2(32 - sh) == B
  {
    hide Pow2;
    SplitLimb(s[q], 32 - sh);
    DownIs(s, q + 1, sh);
  }

  lemma DownIs(s: seq<Limb>, q: nat, sh: nat)
    requires q <= |s| && sh < 32
    ensures Down(s, q, sh) == Low(s, q, sh) * Pow2(32 - sh)
  {
    hide Pow2;
    if q < |s| {
      SplitLimb(s[q], 32 - sh);
    }
  }

  lemma RightDigit(m: int, v: int, r: int, w: int, l: int, p: int, x: int, next: int, h: int)
    requires m >= 1 && m * v + r == w + l * p && l == x % m && m * h == B
    ensures m * (v + (x / m + next * h) * p) + r == w + x * p + next * (p * B)
  {
    var d := x / m + next * h;
    assert m * (v + d * p) == m * v + m * (d * p) by { Distribute(v, d * p, m); }
    assert m * (d * p) == (m * d) * p by { Mul3(m, d, p); }
    assert m * d == (x - l) + next * B by {
      Distribute(x / m, next * h, m);
      Mul3(next, h, m);
    }
    Distribute(x - l, next * B, p);
    Distribute(x, l, p);
    Mul3(next, B, p);
    Mul3(next, p, B);
  }

  lemma RightLimbLater(s: seq<Limb>, k: nat, q: nat, sh: nat)
    requires k + q < |s| && sh < 32
    ensures RightLimb(s[k..], q, sh) == RightLimb(s, q + k, sh)
  {
    hide Shl, Shr;
  }

  lemma LowBound(s: seq<Limb>, sh: nat)
    ensures 0 <= Low(s, 0, sh) < Pow2(sh) && Low(s, |s|, sh) == 0
  {
  }

  lemma RightValue(s: seq<Limb>, t: seq<Limb>, k: nat, sh: nat)
    requires |t| == |s| && sh < 32
    requires forall p | 0 <= p < |t| :: t[p] == if p + k < |s| then RightLimb(s, p + k, sh) else 0
    ensures Val(t, |t|) == Val(s, |s|) / Pow2(32 * k + sh)
  {
    hide Pow2, Val, RightLimb;
    var w := |s|;
    ValBound(s, w);
    if k < w {
      var n := w - k;
      forall q | 0 <= q < n ensures t[q] == RightLimb(s[k..], q, sh) {
        RightLimbLater(s, k, q, sh);
      }
      RightSum(s[k..], t, n, sh);
      ValSplit(s, k, n);
      ValSplit(t, n, k);
      ValZero(t[n..], k);
      ValBound(s, k);
      PowAdd(32 * k, sh);
      LowBound(s[k..], sh);
      hide Low;
      RightEnd(Val(s, w), Val(s, k), Pow2(32 * k), Pow2(sh), Val(t, n), Low(s[k..], 0, sh));
    } else {
      ValZero(t, w);
      PowMono(32 * w, 32 * k + sh);
      DivModIs(Val(s, w), 0, Val(s, w), Pow2(32 * k + sh));
    }
  }

  lemma RightEnd(x: int, lo: int, k: int, m: int, v: int, r: int)
    requires x == lo + k * (m * v + r) && 0 <= lo < k && 0 <= r < m
    ensures x / (k * m) == v
  {
    assert k * (m * v + r) == v * (k * m) + k * r by {
      Distribute(m * v, r, k);
      Mul3(k, m, v);
      Mul3(v, k, m);
    }
    assert 0 <= lo + k * r < k * m by {
      MulMono(r + 1, m, k);
      MulMono(0, r, k);
      Distribute(r, 1, k);
    }
    DivModIs(x, v, lo + k * r, k * m);
  }

  // ---------- order and bits ----------

  /** The highest limb that differs decides. */
  lemma {:induction false} Decides(s: seq<Limb>, t: seq<Limb>, i: nat, n: nat)
    requires i < n <= |s| && n <= |t| && s[i] < t[i] && forall j | i < j < n :: s[j] == t[j]
    ensures Val(s, n) < Val(t, n)
  {
    hide Pow2;
    if i == n - 1 {
      ValBound(s, i);
      ValBound(t, i);
      Distribute(s[i], 1, Pow2(32 * i));
      MulMono(s[i] + 1, t[i], Pow2(32 * i));
    } else {
      Decides(s, t, i, n - 1);
    }
  }

  /** The number of bits of a number: the position of its highest bit plus one. */
  function Bits(v: nat): nat {
    if v == 0 then 0 else 1 + Bits(v / 2)
  }

  lemma {:induction false} BitsIs(v: nat, n: nat)
    requires n > 0 && Pow2(n - 1) <= v < Pow2(n)
    ensures Bits(v) == n
  {
    if n > 1 {
      BitsIs(v / 2, n - 1);
    } else {
      assert v == 1 && Bits(v / 2) == 0;
    }
  }

  lemma {:induction false} BitsBound(v: nat)
    ensures v < Pow2(Bits(v)) && (v > 0 ==> Bits(v) > 0 && Pow2(Bits(v) - 1) <= v)
  {
    if v > 0 {
      BitsBound(v / 2);
      if v >= 2 {
        assert Pow2(Bits(v) - 1) == 2 * Pow2(Bits(v / 2) - 1);
      }
    }
  }

  /** The highest bit of the highest limb that is not zero is the highest bit. */
  lemma HighestBit(s: seq<Limb>, i: nat, b: nat)
    requires i < |s| && b < 32 && Pow2(b) <= s[i] < Pow2(b + 1) && forall j | i < j < |s| :: s[j] == 0
    ensures Bits(Val(s, |s|)) == 32 * i + b + 1
  {
    hide Val, Pow2, Bits;
    ValSplit(s, i + 1, |s| - (i + 1));
    ValZero(s[i + 1..], |s| - (i + 1));
    ValStep(s, i);
    ValBound(s, i);
    PowAdd(32 * i, b);
    PowAdd(32 * i, b + 1);
    TopDigit(Val(s, i), s[i], Pow2(32 * i), Pow2(b), Pow2(b + 1));
    BitsIs(Val(s, |s|), 32 * i + b + 1);
  }

  lemma TopDigit(v: int, x: int, p: int, lo: int, hi: int)
    requires 0 <= v < p && lo <= x < hi
    ensures p * lo <= v + x * p < p * hi
  {
    MulMono(lo, x, p);
    MulMono(x + 1, hi, p);
    Distribute(x, 1, p);
  }

  /** Is bit b of x set? */
  predicate Bit(x: Limb, b: nat) {
    Shr(x, b) % 2 == 1
  }

  lemma TopBit(x: Limb, b: nat)
    requires x < Pow2(b + 1)
    ensures Bit(x, b) <==> x >= Pow2(b)
  {
    hide *;
    PowPositive(b);
    BitIs(x, b);
    HalfOf(x, Pow2(b));
  }

  lemma BitIs(x: Limb, b: nat)
    ensures Bit(x, b) <==> (x / Pow2(b)) % 2 == 1
    ensures Pow2(b + 1) == 2 * Pow2(b)
  {
  }

  lemma PowPositive(b: nat)
    ensures Pow2(b) >= 1
  {
  }

  lemma HalfOf(x: int, p: int)
    requires 0 <= x < 2 * p && p >= 1
    ensures (x / p) % 2 == 1 <==> x >= p
  {
    if x >= p {
      DivModIs(x, 1, x - p, p);
    } else {
      DivModIs(x, 0, x, p);
    }
  }

  // ---------- a quotient, bit by bit ----------

  predicate MultipleOf(x: int, p: int) {
    p >= 1 && x % p == 0
  }

  /** The n lowest bits are zero. */
  ghost predicate Aligned(s: seq<Limb>, n: nat) {
    && n <= 32 * |s|
    && (forall j | 0 <= j < n / 32 :: s[j] == 0)
    && (n / 32 < |s| ==> MultipleOf(s[n / 32], Pow2(n % 32)))
  }

  lemma AlignedDown(s: seq<Limb>, n: nat)
    requires n > 0 && Aligned(s, n)
    ensures Aligned(s, n - 1)
  {
    hide Pow2, MultipleOf;
    var t := (n - 1) % 32;
    ZeroMultiple(Pow2(t));
    if t < 31 && (n - 1) / 32 < |s| {
      PowDouble(t);
      Halve(s[n / 32], Pow2(t));
    }
  }

  lemma PowDouble(t: nat)
    ensures Pow2(t + 1) == 2 * Pow2(t)
  {
  }

  lemma ZeroMultiple(p: int)
    requires p >= 1
    ensures MultipleOf(0, p)
  {
  }

  lemma Halve(x: int, p: int)
    requires p >= 1 && MultipleOf(x, 2 * p)
    ensures MultipleOf(x, p) && MultipleOf(x + p, p)
  {
    var q := x / (2 * p);
    Mul3(q, 2, p);
    assert x == (2 * q) * p;
    ModIs(x, 0, 2 * q, p);
    Distribute(2 * q, 1, p);
    ModIs(x + p, 0, 2 * q + 1, p);
  }

  lemma MultipleFits(x: int, p: int, h: int)
    requires MultipleOf(x, p) && 0 <= x < p * h
    ensures x + p <= p * h
  {
    var q := x / p;
    if q >= h {
      MulMono(h, q, p);
    } else {
      MulMono(q + 1, h, p);
      Distribute(q, 1, p);
    }
  }

  /** Setting bit n of a number whose lower bits are zero adds 2^n. */
  lemma SetBit(s: seq<Limb>, n: nat)
    requires n < 32 * |s| && Aligned(s, n + 1)
    ensures BitOr(s[n / 32], Pow2(n % 32)) == s[n / 32] + Pow2(n % 32) < B
    ensures Aligned(s[n / 32 := s[n / 32] + Pow2(n % 32)], n)
    ensures Val(s[n / 32 := s[n / 32] + Pow2(n % 32)], |s|) == Val(s, |s|) + Pow2(n)
  {
    hide *;
    LimbAligned(s, n);
    BitFits(s[n / 32], n % 32);
    AddedBit(s, n / 32, n % 32);
    AlignedSet(s, n, s[n / 32] + Pow2(n % 32));
  }

  lemma LimbAligned(s: seq<Limb>, n: nat)
    requires n < 32 * |s| && Aligned(s, n + 1)
    ensures MultipleOf(s[n / 32], Pow2(n % 32 + 1))
  {
    hide Pow2, MultipleOf;
    PowPositive(n % 32 + 1);
    ZeroMultiple(Pow2(n % 32 + 1));
  }

  lemma AlignedSet(s: seq<Limb>, n: nat, x: Limb)
    requires n < 32 * |s| && Aligned(s, n + 1) && MultipleOf(x, Pow2(n % 32))
    ensures Aligned(s[n / 32 := x], n)
  {
    hide Pow2, MultipleOf;
  }

  lemma AddedBit(s: seq<Limb>, k: nat, t: nat)
    requires k < |s| && s[k] + Pow2(t) < B
    ensures Val(s[k := s[k] + Pow2(t)], |s|) == Val(s, |s|) + Pow2(32 * k + t)
  {
    hide Pow2, Val;
    PowAdd(32 * k, t);
    ValSet(s, |s|, k, s[k] + Pow2(t));
    assert s[k] + Pow2(t) - s[k] == Pow2(t);
  }

  lemma BitFits(x: Limb, t: nat)
    requires t < 32 && MultipleOf(x, Pow2(t + 1))
    ensures BitOr(x, Pow2(t)) == x + Pow2(t) < B && MultipleOf(x + Pow2(t), Pow2(t))
  {
    hide BitOr;
    PowDouble(t);
    Pow32();
    PowAdd(t + 1, 31 - t);
    hide Pow2;
    OrIsPlus(x, Pow2(t), t + 1);
    hide MultipleOf;
    MultipleFits(x, Pow2(t + 1), Pow2(31 - t));
    Halve(x, Pow2(t));
  }
}
