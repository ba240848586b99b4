/**
 Large unsigned integers as arrays of 32-bit limbs (src/arith_uint256.h:27-271, src/arith_uint256.cpp:57-208):
 every loop over limbs computes on natural numbers modulo 2^BITS. The width is that of the array.
 */
module ArithUint {
  import opened Arithmetic
  import opened Limbs

  const MAX64 := 0x1_0000_0000_0000_0000

  /** One limb of a sum or product: the low part stays, the high part is carried. */
  lemma CarryStep(v: int, c: int, p: int, r: int, x: int, n: int)
    requires v + c * p == r && n == c + x
    ensures v + (n % B) * p + (n / B) * (p * B) == r + x * p
  {
    Split(n, p);
    Distribute(c, x, p);
  }

  /** A write to limb i extends what is known of the limbs below it. */
  lemma Extend(s: seq<Limb>, t: seq<Limb>, i: nat, c: int, r: int, x: int, n: int)
    requires |t| == |s| && i < |s| && n >= 0 && n == c + x && t == s[i := n % B]
    requires Val(s, i) + c * Pow2(32 * i) == r
    ensures Val(t, i + 1) + (n / B) * Pow2(32 * (i + 1)) == r + x * Pow2(32 * i)
  {
    ValSame(s, t, i);
    ValStep(t, i);
    PowLimb(i);
    hide Pow2;
    CarryStep(Val(s, i), c, Pow2(32 * i), r, x, n);
  }

  /** A number of w limbs with a carry is the number modulo 2^(32 w). */
  lemma Wrap(s: seq<Limb>, carry: int, x: int)
    requires Val(s, |s|) + carry * Pow2(32 * |s|) == x
    ensures Val(s, |s|) == x % Pow2(32 * |s|)
  {
    ValBound(s, |s|);
    ModIs(x, Val(s, |s|), carry, Pow2(32 * |s|));
  }

  class BaseUint {
    const pn: array<Limb>

    ghost function Value(): (v: nat)
      reads pn
      ensures v < Modulus()
    {
      ValBound(pn[..], pn.Length);
      Val(pn[..], pn.Length)
    }

    /** 2^BITS */
    ghost function Modulus(): (m: nat)
      ensures m >= 1
    {
      Pow2(32 * pn.Length)
    }

    constructor (width: nat)
      ensures pn.Length == width && fresh(pn) && Value() == 0
    {
      pn := new Limb[width](i => 0);
      new;
      ValZero(pn[..], pn.Length);
    }

    constructor Copy(b: BaseUint)
      ensures pn.Length == b.pn.Length && fresh(pn) && pn[..] == b.pn[..] && Value() == b.Value()
    {
      var p := b.pn;
      pn := new Limb[b.pn.Length](i requires 0 <= i < b.pn.Length reads p => p[i]);
      new;
      assert pn[..] == b.pn[..];
    }

    /** A 64-bit number. */
    method Assign64(b: int)
      requires 0 <= b < MAX64 && pn.Length >= 2
      modifies pn
      ensures Value() == b
    {
      pn[0] := b % B;
      pn[1] := b / B;
      for i := 2 to pn.Length
        invariant pn[0] == b % B && pn[1] == b / B && forall j | 2 <= j < i :: pn[j] == 0
      {
        pn[i] := 0;
      }
      LowTwo(pn[..]);
      ValZero(pn[2..], pn.Length - 2);
      assert pn[..][2..] == pn[2..];
    }

    /** The lowest 64 bits. */
    method GetLow64() returns (r: int)
      requires pn.Length >= 2
      ensures r == Value() % MAX64
    {
      LowTwo(pn[..]);
      LowOr(pn[0], pn[1]);
      r := BitOr(pn[0], pn[1] as int * B);
    }

    /** Add. The other number may be this one. */
    method AddAssign(b: BaseUint)
      requires b.pn.Length == pn.Length
      modifies pn
      ensures Value() == (old(Value()) + old(b.Value())) % Modulus()
    {
      hide Pow2, Val;
      ghost var s, t := pn[..], b.pn[..];
      ValNone(s);
      ValNone(t);
      var carry := 0;
      for i := 0 to pn.Length
        invariant 0 <= carry < B
        invariant forall j | i <= j < pn.Length :: pn[j] == s[j] && b.pn[j] == t[j]
        invariant Val(pn[..], i) + carry * Pow2(32 * i) == Val(s, i) + Val(t, i)
      {
        ghost var u := pn[..];
        var n := carry + pn[i] + b.pn[i];
        assert n < MAX64;
        pn[i] := n % B;
        Extend(u, pn[..], i, carry, Val(s, i) + Val(t, i), s[i] as int + t[i], n);
        carry := n / B;
        ValStep(s, i);
        ValStep(t, i);
        Distribute(s[i], t[i], Pow2(32 * i));
      }
      assert pn[..] == pn[..pn.Length];
      Wrap(pn[..], carry, Val(s, pn.Length) + Val(t, pn.Length));
    }

    /** The complement of every limb. */
    method Complement() returns (r: BaseUint)
      ensures fresh(r) && fresh(r.pn) && r.pn.Length == pn.Length
      ensures r.Value() == Modulus() - 1 - Value()
    {
      hide Pow2, Val;
      r := new BaseUint(pn.Length);
      ghost var s := pn[..];
      ValNone(s);
      ValNone(r.pn[..]);
      for i := 0 to pn.Length
        invariant fresh(r.pn) && pn[..] == s
        invariant Val(r.pn[..], i) + Val(s, i) + 1 == Pow2(32 * i)
      {
        ghost var u := r.pn[..];
        r.pn[i] := B - 1 - pn[i];
        ValSame(u, r.pn[..], i);
        ValStep(s, i);
        ValStep(r.pn[..], i);
        PowLimb(i);
        Distribute(B - 1, s[i], Pow2(32 * i));
        Distribute(B, 1, Pow2(32 * i));
      }
      assert pn[..] == pn[..pn.Length] && r.pn[..] == r.pn[..pn.Length];
    }

    /** Add one: limbs that wrap to zero pass the carry on. */
    method Increment()
      requires pn.Length > 0
      modifies pn
      ensures Value() == (old(Value()) + 1) % Modulus()
    {
      hide Pow2, Val;
      ghost var s := pn[..];
      var i := 0;
      pn[0] := (pn[0] + 1) % B;
      CountStep(s, pn[..], 0, 1);
      while pn[i] == 0 && i < pn.Length - 1
        invariant 0 <= i < pn.Length
        invariant forall j | i < j < pn.Length :: pn[j] == s[j]
        invariant pn[i] == (s[i] + 1) % B
        invariant Val(pn[..], i + 1) + (if pn[i] == 0 then Pow2(32 * (i + 1)) else 0) == Val(s, i + 1) + 1
        decreases pn.Length - i
      {
        i := i + 1;
        ghost var u := pn[..];
        pn[i] := (pn[i] + 1) % B;
        ValSame(u, pn[..], i);
        CountStep(s, pn[..], i, 1);
      }
      Above(s, pn[..], i + 1, if pn[i] == 0 then 1 else 0, 1);
    }

    /** Subtract one: limbs that wrap to the top pass the borrow on. */
    method Decrement()
      requires pn.Length > 0
      modifies pn
      ensures Value() == (old(Value()) - 1) % Modulus()
    {
      hide Pow2, Val;
      ghost var s := pn[..];
      var i := 0;
      pn[0] := (pn[0] - 1) % B;
      CountStep(s, pn[..], 0, -1);
      while pn[i] == B - 1 && i < pn.Length - 1
        invariant 0 <= i < pn.Length
        invariant forall j | i < j < pn.Length :: pn[j] == s[j]
        invariant pn[i] == (s[i] - 1) % B
        invariant Val(pn[..], i + 1) - (if pn[i] == B - 1 then Pow2(32 * (i + 1)) else 0) == Val(s, i + 1) - 1
        decreases pn.Length - i
      {
        i := i + 1;
        ghost var u := pn[..];
        pn[i] := (pn[i] - 1) % B;
        ValSame(u, pn[..], i);
        CountStep(s, pn[..], i, -1);
      }
      Above(s, pn[..], i + 1, if pn[i] == B - 1 then -1 else 0, -1);
    }

    /** The negative: complement and add one. */
    method Negate() returns (r: BaseUint)
      requires pn.Length > 0
      ensures fresh(r) && fresh(r.pn) && r.pn.Length == pn.Length
      ensures r.Value() == (Modulus() - Value()) % Modulus()
    {
      r := Complement();
      r.Increment();
    }

    /** Subtract, by adding the negative. */
    method SubAssign(b: BaseUint)
      requires b.pn.Length == pn.Length > 0
      modifies pn
      ensures Value() == (old(Value()) - old(b.Value())) % Modulus()
    {
      var r := b.Negate();
      SubIsAddNegative(Value(), b.Value(), Modulus());
      AddAssign(r);
    }

    /** Multiply by one limb. */
    method MulAssign32(b32: int)
      requires 0 <= b32 < B
      modifies pn
      ensures Value() == (old(Value()) * b32) % Modulus()
    {
      hide Pow2, Val;
      ghost var s := pn[..];
      ValNone(s);
      var carry := 0;
      for i := 0 to pn.Length
        invariant 0 <= carry < B
        invariant forall j | i <= j < pn.Length :: pn[j] == s[j]
        invariant Val(pn[..], i) + carry * Pow2(32 * i) == Val(s, i) * b32
      {
        ghost var u := pn[..];
        ProductFits(b32, pn[i], carry, 0);
        var n := carry + b32 * pn[i];
        assert n < MAX64;
        pn[i] := n % B;
        Extend(u, pn[..], i, carry, Val(s, i) * b32, b32 * s[i], n);
        carry := n / B;
        ValStep(s, i);
        Distribute(Val(s, i), s[i] * Pow2(32 * i), b32);
        Mul3(b32, s[i], Pow2(32 * i));
        Mul3(s[i], Pow2(32 * i), b32);
      }
      assert pn[..] == pn[..pn.Length];
      Wrap(pn[..], carry, Val(s, pn.Length) * b32);
    }

    /** Multiply by another number. The source sets its target to zero before it reads b, so a number multiplied by
        itself is zero. */
    method MulAssign(b: BaseUint)
      requires b.pn.Length == pn.Length
      modifies pn
      ensures Value() == if b.pn == pn then 0 else (old(Value()) * b.Value()) % Modulus()
    {
      hide Pow2, Val;
      ghost var s := pn[..];
      var a := new BaseUint.Copy(this);
      SetZero();
      ghost var t := b.pn[..];
      ValNone(s);
      ghost var q := 0;
      for j := 0 to pn.Length
        invariant a.pn != pn && a.pn[..] == s && b.pn[..] == t
        invariant b.pn == pn ==> Val(t, pn.Length) == 0 && forall k | 0 <= k < pn.Length :: pn[k] == 0
        invariant Val(pn[..], pn.Length) + q * Modulus() == Val(s, j) * Val(t, pn.Length)
      {
        ghost var r := Val(pn[..], pn.Length);
        ghost var d := AddRow(a.pn[j], b, j);
        ValStep(s, j);
        MulRow(Val(pn[..], pn.Length), d, r, q, Modulus(), Val(s, j), s[j], Pow2(32 * j), Val(t, pn.Length));
        q := q + d;
      }
      assert s[..pn.Length] == s;
      Wrap(pn[..], q, Val(s, pn.Length) * Val(t, pn.Length));
    }

    method SetZero()
      modifies pn
      ensures Value() == 0 && forall i | 0 <= i < pn.Length :: pn[i] == 0
    {
      for i := 0 to pn.Length
        invariant forall j | 0 <= j < i :: pn[j] == 0
      {
        pn[i] := 0;
      }
      ValZero(pn[..], pn.Length);
    }

    /** Add x times b, shifted by j limbs; limbs beyond the width are dropped, d times the modulus in all. */
    method AddRow(x: Limb, b: BaseUint, j: nat) returns (ghost d: int)
      requires b.pn.Length == pn.Length && j < pn.Length && (b.pn == pn ==> forall k | 0 <= k < pn.Length :: pn[k] == 0)
      modifies pn
      ensures b.pn == pn ==> pn[..] == old(pn[..])
      ensures Value() + d * Modulus() == old(Value()) + x * Pow2(32 * j) * b.Value()
    {
      hide Pow2, Val;
      ghost var s, t, w := pn[..], b.pn[..], pn.Length;
      ValNone(t);
      var carry := 0;
      var i := 0;
      while i + j < pn.Length
        invariant 0 <= i && i + j <= w && 0 <= carry < B && b.pn[..] == t && (b.pn == pn ==> carry == 0)
        invariant forall k | i + j <= k < w :: pn[k] == s[k]
        invariant Val(pn[..], i + j) + carry * Pow2(32 * (i + j)) == Val(s, i + j) + x * Pow2(32 * j) * Val(t, i)
      {
        ghost var u := pn[..];
        ProductFits(x, b.pn[i], carry, pn[i + j]);
        var n := carry + pn[i + j] + x * b.pn[i];
        assert n < MAX64;
        pn[i + j] := n % B;
        Extend(u, pn[..], i + j, carry, Val(s, i + j) + x * Pow2(32 * j) * Val(t, i), s[i + j] + x * t[i], n);
        carry := n / B;
        ValStep(s, i + j);
        ValStep(t, i);
        PowAdd(32 * i, 32 * j);
        RowStep(x, Pow2(32 * j), Val(t, i), t[i], Pow2(32 * i), s[i + j]);
        i := i + 1;
      }
      assert pn[..] == pn[..w] && s == s[..w];
      d := carry + x * Val(t[i..], j);
      ValSplit(t, i, j);
      PowAdd(32 * i, 32 * j);
      RowEnd(Val(pn[..], w), carry, Modulus(), Val(s, w), x, Pow2(32 * j), Val(t, i), Pow2(32 * i), Val(t[i..], j));
    }

    method ShiftLeft(shift0: nat)
      modifies pn
      ensures Value() == (old(Value()) * Pow2(shift0)) % Modulus()
    {
      hide Pow2, Val, BitOr, LeftLimb, Up, Shl, Shr;
      ghost var s := pn[..];
      var a := new BaseUint.Copy(this);
      SetZero();
      var k, shift := shift0 / 32, shift0 % 32;
      UpNone(s, shift);
      for i := 0 to pn.Length
        invariant a.pn != pn && a.pn[..] == s
        invariant forall p | 0 <= p < pn.Length :: pn[p] == LeftAt(s, p, k, shift, i)
      {
        LeftLimbFits(s, i, shift);
        OrSym(0, Up(s, i + 1, shift));
        OrZero(Up(s, i + 1, shift));
        if i + k + 1 < pn.Length && shift != 0 {
          pn[i + k + 1] := BitOr(pn[i + k + 1], Shr(a.pn[i], 32 - shift));
        }
        if i + k < pn.Length {
          pn[i + k] := BitOr(pn[i + k], Shl(a.pn[i], shift));
        }
      }
      LeftValue(s, pn[..], k, shift);
    }

    method ShiftRight(shift0: nat)
      modifies pn
      ensures Value() == old(Value()) / Pow2(shift0)
    {
      hide Pow2, Val, BitOr, RightLimb, Shl, Shr;
      ghost var s := pn[..];
      var a := new BaseUint.Copy(this);
      SetZero();
      var k, shift := shift0 / 32, shift0 % 32;
      for i := 0 to pn.Length
        invariant a.pn != pn && a.pn[..] == s
        invariant forall p | 0 <= p < pn.Length :: pn[p] == RightAt(s, p, k, shift, i)
      {
        if i - k - 1 >= 0 {
          RightLimbFits(s, i - 1, shift);
          OrZero(Shr(s[i - 1], shift));
        }
        RightLimbFits(s, i, shift);
        OrSym(0, Shr(s[i], shift));
        OrZero(Shr(s[i], shift));
        RightLast(s, i, shift);
        if i - k - 1 >= 0 && shift != 0 {
          pn[i - k - 1] := BitOr(pn[i - k - 1], Shl(a.pn[i], 32 - shift));
        }
        if i - k >= 0 {
          pn[i - k] := BitOr(pn[i - k], Shr(a.pn[i], shift));
        }
      }
      RightValue(s, pn[..], k, shift);
    }

    /** -1, 0 or 1. */
    method CompareTo(b: BaseUint) returns (c: int)
      requires b.pn.Length == pn.Length
      ensures c == if Value() < b.Value() then -1 else if Value() > b.Value() then 1 else 0
    {
      hide Pow2, Val;
      var i := pn.Length - 1;
      while i >= 0
        invariant -1 <= i < pn.Length && forall j | i < j < pn.Length :: pn[j] == b.pn[j]
      {
        if pn[i] < b.pn[i] {
          Decides(pn[..], b.pn[..], i, pn.Length);
          return -1;
        }
        if pn[i] > b.pn[i] {
          Decides(b.pn[..], pn[..], i, pn.Length);
          return 1;
        }
        i := i - 1;
      }
      assert pn[..] == b.pn[..];
      return 0;
    }

    /** The position of the highest bit plus one, 0 for zero. */
    method NumBits() returns (n: nat)
      ensures n == Bits(Value()) && n <= 32 * pn.Length
    {
      hide Pow2, Val, Bits, Bit;
      var pos := pn.Length - 1;
      while pos >= 0
        invariant -1 <= pos < pn.Length && forall j | pos < j < pn.Length :: pn[j] == 0
      {
        if pn[pos] != 0 {
          var bits := 31;
          Pow32();
          while bits > 0
            invariant 0 <= bits <= 31 && pn[pos] < Pow2(bits + 1)
          {
            TopBit(pn[pos], bits);
            if Bit(pn[pos], bits) {
              HighestBit(pn[..], pos, bits);
              return 32 * pos + bits + 1;
            }
            bits := bits - 1;
          }
          OneBit();
          HighestBit(pn[..], pos, 0);
          return 32 * pos + 1;
        }
        pos := pos - 1;
      }
      ValZero(pn[..], pn.Length);
      NoBits();
      return 0;
    }

    /** Set one bit below which all are zero. */
    method SetQuotientBit(shift: nat)
      requires shift < 32 * pn.Length && Aligned(pn[..], shift + 1)
      modifies pn
      ensures Aligned(pn[..], shift) && Value() == old(Value()) + Pow2(shift)
    {
      hide Pow2, Val, BitOr, Aligned;
      ghost var u := pn[..];
      SetBit(u, shift);
      pn[shift / 32] := BitOr(pn[shift / 32], Pow2(shift % 32));
      assert pn[..] == u[shift / 32 := u[shift / 32] + Pow2(shift % 32)];
    }

    /**
     Divide, by shifting and subtracting. Division by zero is refused, when the target is zero already.
     The other number may be this one.
     */
    method DivAssign(b: BaseUint) returns (ok: bool)
      requires b.pn.Length == pn.Length
      modifies pn
      ensures ok <==> old(b.Value()) != 0
      ensures Value() == if ok then old(Value()) / old(b.Value()) else 0
    {
      hide Pow2, Val, Bits, BitOr, Aligned, Dividing;
      var div := new BaseUint.Copy(b);
      var num := new BaseUint.Copy(this);
      ghost var n, d := Value(), b.Value();
      SetZero();
      var num_bits := num.NumBits();
      var div_bits := div.NumBits();
      BitsBound(n);
      BitsBound(d);
      BitsZero(d);
      if div_bits == 0 {
        return false;
      }
      ok := true;
      if div_bits > num_bits {
        PowMono(num_bits, div_bits - 1);
        DivModIs(n, 0, n, d);
        return;
      }
      var shift := num_bits - div_bits;
      FirstShift(n, d, shift, pn.Length);
      DivStart(n, d, shift);
      div.ShiftLeft(shift);
      AllZero(pn[..], shift + 1);
      while shift >= 0
        invariant -1 <= shift < 32 * pn.Length && fresh(div.pn) && fresh(num.pn) && div.pn != num.pn && num.pn != pn && div.pn != pn
        invariant Dividing(n, d, shift, div.Value(), Value(), num.Value())
        invariant Aligned(pn[..], shift + 1)
      {
        var c := num.CompareTo(div);
        ghost var v, r, w := Value(), num.Value(), div.Value();
        if c >= 0 {
          num.SubAssign(div);
          SetQuotientBit(shift);
        } else {
          AlignedDown(pn[..], shift + 1);
        }
        DivStep(n, d, shift, w, v, r, Value(), num.Value(), num.Modulus());
        div.ShiftRight(1);
        shift := shift - 1;
      }
      DivEnd(n, d, div.Value(), Value(), num.Value());
    }
  }

  /** Limb p of a number that is shifted left by 32 k + sh bits, after i limbs. */
  function LeftAt(s: seq<Limb>, p: nat, k: nat, sh: nat, i: nat): nat
    requires i <= |s| && sh < 32
  {
    if p < k || p > i + k then 0 else if p == i + k then Up(s, i, sh) else LeftLimb(s, p - k, sh)
  }

  /** Limb p of a number that is shifted right by 32 k + sh bits, after i limbs. */
  function RightAt(s: seq<Limb>, p: nat, k: nat, sh: nat, i: nat): nat
    requires i <= |s| && sh < 32
  {
    if p + k >= i then 0 else if p + k + 1 >= i && i < |s| then Shr(s[p + k], sh) else RightLimb(s, p + k, sh)
  }

  lemma UpNone(s: seq<Limb>, sh: nat)
    requires sh < 32
    ensures Up(s, 0, sh) == 0
  {
  }

  /** The top limb gets nothing from above. */
  lemma RightLast(s: seq<Limb>, i: nat, sh: nat)
    requires i < |s| && sh < 32
    ensures i == |s| - 1 ==> RightLimb(s, i, sh) == Shr(s[i], sh)
    ensures i > 0 ==> Down(s, i, sh) == Shl(s[i], 32 - sh)
    ensures i > 0 && sh == 0 ==> RightLimb(s, i - 1, sh) == Shr(s[i - 1], sh)
  {
    if i > 0 {
      RightLimbFits(s, i - 1, sh);
    }
    RightLimbFits(s, i, sh);
    hide Shr, Shl;
  }

  lemma OneBit()
    ensures Pow2(0) == 1 && Pow2(1) == 2
  {
  }

  lemma NoBits()
    ensures Bits(0) == 0
  {
  }

  lemma LowTwo(s: seq<Limb>)
    requires |s| >= 2
    ensures Val(s, |s|) == s[0] + s[1] * B + MAX64 * Val(s[2..], |s| - 2)
    ensures Val(s, |s|) % MAX64 == s[0] + s[1] * B
  {
    hide Pow2, Val;
    ValSplit(s, 2, |s| - 2);
    ValNone(s);
    ValStep(s, 0);
    ValStep(s, 1);
    Pow32();
    PowAdd(32, 32);
    ModIs(Val(s, |s|), s[0] + s[1] * B, Val(s[2..], |s| - 2), MAX64);
  }

  lemma LowOr(x: Limb, y: Limb)
    ensures BitOr(x, y * B) == x + y * B
  {
    Pow32();
    hide Pow2, BitOr;
    OrSym(x, y * B);
    ModIs(y * B, 0, y, B);
    OrIsPlus(y * B, x, 32);
  }

  lemma BitsZero(v: nat)
    ensures Bits(v) == 0 <==> v == 0
  {
  }

  lemma AllZero(s: seq<Limb>, n: nat)
    requires n <= 32 * |s| && forall i | 0 <= i < |s| :: s[i] == 0
    ensures Aligned(s, n)
  {
    ZeroMultiple(Pow2(n % 32));
  }

  /** Shifting the divisor until its highest bit meets that of the dividend loses nothing. */
  lemma FirstShift(n: nat, d: nat, shift: nat, w: nat)
    requires d > 0 && shift == Bits(n) - Bits(d) && Bits(n) <= 32 * w
    ensures d * Pow2(shift) == (d * Pow2(shift)) % Pow2(32 * w)
    ensures n < d * Pow2(shift + 1)
  {
    BitsBound(n);
    BitsBound(d);
    PowAdd(Bits(d), shift);
    PowAdd(Bits(d) - 1, shift + 1);
    PowMono(Bits(n), 32 * w);
    hide Pow2, Bits;
    MulMono(d + 1, Pow2(Bits(d)), Pow2(shift));
    MulMono(0, d, Pow2(shift));
    MulMono(Pow2(Bits(d) - 1), d, Pow2(shift + 1));
    Distribute(d, 1, Pow2(shift));
    ModIs(d * Pow2(shift), d * Pow2(shift), 0, Pow2(32 * w));
  }

  /** Dividing n by d: w is d shifted, v the quotient so far, r what is left. */
  ghost predicate Dividing(n: nat, d: nat, shift: int, w: nat, v: nat, r: nat) {
    && shift >= -1
    && (shift >= 0 ==> w == d * Pow2(shift))
    && r < d * Pow2(shift + 1)
    && v * d + r == n
  }

  lemma DivStart(n: nat, d: nat, shift: nat)
    requires n < d * Pow2(shift + 1) && d * Pow2(shift) >= 0
    ensures Dividing(n, d, shift, d * Pow2(shift), 0, n)
  {
  }

  lemma DivEnd(n: nat, d: nat, w: nat, v: nat, r: nat)
    requires Dividing(n, d, -1, w, v, r)
    ensures d > 0 ==> v == n / d
  {
    if d > 0 {
      DivModIs(n, v, r, d);
    }
  }

  /** One step of the division: a digit of the quotient and the rest. */
  lemma DivStep(n: nat, d: nat, shift: nat, w: nat, v: nat, r: nat, v': nat, r': nat, m: nat)
    requires Dividing(n, d, shift, w, v, r) && r < m
    requires if r >= w then v' == v + Pow2(shift) && r' == (r - w) % m else v' == v && r' == r
    ensures Dividing(n, d, shift - 1, w / Pow2(1), v', r')
  {
    OneBit();
    PowDouble(shift);
    HalfShift(d, shift, w);
    hide Pow2;
    Mul3(d, 2, Pow2(shift));
    if r >= w {
      ModIs(r - w, r - w, 0, m);
      Distribute(v, Pow2(shift), d);
    }
  }

  lemma HalfShift(d: nat, shift: nat, v: nat)
    requires v == d * Pow2(shift)
    ensures shift > 0 ==> v / Pow2(1) == d * Pow2(shift - 1)
  {
    if shift > 0 {
      PowDouble(shift - 1);
      OneBit();
      hide Pow2;
      Mul3(d, 2, Pow2(shift - 1));
      DivModIs(v, d * Pow2(shift - 1), 0, 2);
    }
  }

  lemma ProductFits(x: int, y: int, c: int, d: int)
    requires 0 <= x < B && 0 <= y < B && 0 <= c < B && 0 <= d < B
    ensures 0 <= x * y && c + d + x * y < MAX64
  {
    MulMono(x, B - 1, y);
    MulMono(0, x, y);
  }

  lemma RowStep(x: int, pj: int, v: int, y: int, pi: int, z: int)
    ensures x * pj * (v + y * pi) + z * (pi * pj) == x * pj * v + (z + x * y) * (pi * pj)
  {
    var w := x * pj;
    assert w * (v + y * pi) == w * v + w * (y * pi) by { Distribute(v, y * pi, w); }
    assert w * (y * pi) == (x * y) * (pi * pj) by {
      Mul3(x, pj, y * pi);
      Mul3(pj, y, pi);
      Mul3(x, y, pi * pj);
      Mul3(y, pj, pi);
    }
    Distribute(z, x * y, pi * pj);
  }

  lemma RowEnd(v: int, c: int, m: int, r: int, x: int, pj: int, lo: int, pi: int, hi: int)
    requires v + c * m == r + x * pj * lo && m == pi * pj
    ensures v + (c + x * hi) * m == r + x * pj * (lo + pi * hi)
  {
    var w := x * pj;
    assert w * (lo + pi * hi) == w * lo + w * (pi * hi) by { Distribute(lo, pi * hi, w); }
    assert w * (pi * hi) == (x * hi) * m by {
      Mul3(x, pj, pi * hi);
      Mul3(pj, pi, hi);
      Mul3(x, hi, m);
      Mul3(m, hi, x);
    }
    Distribute(c, x * hi, m);
  }

  lemma MulRow(v: int, d: int, r: int, q: int, m: int, a: int, x: int, p: int, b: int)
    requires v + d * m == r + x * p * b && r + q * m == a * b
    ensures v + (q + d) * m == (a + x * p) * b
  {
    Distribute(q, d, m);
    Distribute(a, x * p, b);
  }

  /** Counting up or down in one limb; the next limb must follow if this one wrapped. */
  lemma CountStep(s: seq<Limb>, t: seq<Limb>, i: nat, d: int)
    requires |t| == |s| && i < |s| && (d == 1 || d == -1) && t[i] == (s[i] + d) % B
    requires i > 0 ==> Val(t, i) + d * Pow2(32 * i) == Val(s, i) + d
    ensures var wrapped := t[i] == if d == 1 then 0 else B - 1;
            Val(t, i + 1) + (if wrapped then d * Pow2(32 * (i + 1)) else 0) == Val(s, i + 1) + d
  {
    hide Pow2, Val;
    ValStep(s, i);
    ValStep(t, i);
    ValNone(s);
    ValNone(t);
    PowLimb(i);
    CountDigit(s[i], t[i], d, Pow2(32 * i));
  }

  lemma CountDigit(x: int, y: int, d: int, p: int)
    requires 0 <= x < B && (d == 1 || d == -1) && y == (x + d) % B
    ensures y * p + (if y == (if d == 1 then 0 else B - 1) then d * (p * B) else 0) == x * p + d * p
  {
    Distribute(x, d, p);
    if d == 1 {
      assert y == if x == B - 1 then 0 else x + 1;
    } else {
      assert y == if x == 0 then B - 1 else x - 1;
    }
  }

  /** Limbs from n on are equal, those below differ by d up to a wrap of the last. */
  lemma Above(s: seq<Limb>, t: seq<Limb>, n: nat, wrap: int, d: int)
    requires |t| == |s| && 0 < n <= |s| && (forall j | n <= j < |s| :: t[j] == s[j]) && (n < |s| ==> wrap == 0)
    requires Val(t, n) + wrap * Pow2(32 * n) == Val(s, n) + d
    ensures Val(t, |t|) == (Val(s, |s|) + d) % Pow2(32 * |s|)
  {
    hide Pow2, Val;
    ValSplit(s, n, |s| - n);
    ValSplit(t, n, |s| - n);
    ValSame(s[n..], t[n..], |s| - n);
    Wrap(t, wrap, Val(s, |s|) + d);
  }

  lemma SubIsAddNegative(a: int, b: int, m: int)
    requires 0 <= a < m && 0 <= b < m
    ensures (a + (m - b) % m) % m == (a - b) % m
  {
    if b == 0 {
      ModIs(m, 0, 1, m);
    } else {
      ModIs(m - b, m - b, 0, m);
      if a >= b {
        ModIs(a + (m - b), a - b, 1, m);
        ModIs(a - b, a - b, 0, m);
      } else {
        ModIs(a + (m - b), a - b + m, 0, m);
        ModIs(a - b, a - b + m, -1, m);
      }
    }
  }
}
