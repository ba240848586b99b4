/**
 Coins in a stream (src/coins.h:26-72, 199-263, src/coins.cpp:16-33): version, a code with flags and the number of
 mask bytes that are not zero, the mask, the unspent outputs, the height.
 */
module CoinsCodec {
  import opened Arithmetic
  import opened Options
  import opened Limbs
  import opened Coins
  import opened Compressor
  import VarInt

  function Avail(vout: seq<TxOut>, i: nat): nat {
    if IsAvailable(vout, i) then 1 else 0
  }

  /** Bits i.. of mask byte b: one for each unspent output, the first two outputs apart. */
  function MaskFrom(vout: seq<TxOut>, b: nat, i: nat): (r: nat)
    decreases 8 - i
  {
    if i >= 8 then 0 else Avail(vout, 2 + 8 * b + i) + 2 * MaskFrom(vout, b, i + 1)
  }

  function MaskByte(vout: seq<TxOut>, b: nat): nat {
    MaskFrom(vout, b, 0)
  }

  /** How many of the first n mask bytes are not zero. */
  function Count(vout: seq<TxOut>, n: nat): nat {
    if n == 0 then 0 else Count(vout, n - 1) + if MaskByte(vout, n - 1) != 0 then 1 else 0
  }

  /** The mask up to its last byte that is not zero. */
  function LastUsed(vout: seq<TxOut>, n: nat): (k: nat)
    ensures k <= n
  {
    if n == 0 then 0 else if MaskByte(vout, n - 1) != 0 then n else LastUsed(vout, n - 1)
  }

  lemma {:induction false} LastUsedIs(vout: seq<TxOut>, n: nat)
    ensures var k := LastUsed(vout, n);
            && Count(vout, k) == Count(vout, n) && (k > 0 ==> MaskByte(vout, k - 1) != 0)
            && forall b | k <= b < n :: MaskByte(vout, b) == 0
  {
    hide MaskByte;
    if n > 0 && MaskByte(vout, n - 1) == 0 {
      LastUsedIs(vout, n - 1);
    }
  }

  /** The number of mask bytes that belong to outputs at all. */
  function MaskBytes(vout: seq<TxOut>): nat {
    if |vout| <= 2 then 0 else (|vout| - 2 + 7) / 8
  }

  function MaskSize(vout: seq<TxOut>): nat {
    LastUsed(vout, MaskBytes(vout))
  }

  function MaskCode(vout: seq<TxOut>): nat {
    Count(vout, MaskBytes(vout))
  }

  lemma {:induction false} MaskFits(vout: seq<TxOut>, b: nat, i: nat)
    requires i <= 8
    ensures MaskFrom(vout, b, i) < Pow2(8 - i)
    decreases 8 - i
  {
    if i < 8 {
      MaskFits(vout, b, i + 1);
    }
  }

  lemma ByteFits(vout: seq<TxOut>, b: nat)
    ensures MaskByte(vout, b) < 256
  {
    MaskFits(vout, b, 0);
    assert Pow2(8) == 256 by { assert Pow2(4) == 16; PowAdd(4, 4); }
  }

  function Mask(vout: seq<TxOut>, n: nat): seq<Byte> {
    seq(n, b requires b >= 0 => ByteFits(vout, b); MaskByte(vout, b))
  }

  function Outs(c: Curve, vout: seq<TxOut>, i: nat): seq<Byte>
    requires i <= |vout|
    decreases |vout| - i
  {
    if i == |vout| then [] else
      (if vout[i].IsNull() then [] else TxOutBytes(c, vout[i])) + Outs(c, vout, i + 1)
  }

  /** The header code; the mask always has a byte that is not zero if neither of the first two outputs is left. */
  function HeaderCode(coins: CoinsValue): int {
    var first, second := Avail(coins.vout, 0), Avail(coins.vout, 1);
    16 * (MaskCode(coins.vout) - (if first + second > 0 then 0 else 1))
    + (if coins.fCoinBase then 1 else 0) + (if coins.fCoinStake then 2 else 0) + 4 * first + 8 * second
  }

  function CoinsBytes(c: Curve, coins: CoinsValue): seq<Byte> {
    VarInt.Code(coins.nVersion) + (VarInt.Code(HeaderCode(coins)) + (Mask(coins.vout, MaskSize(coins.vout))
    + (Outs(c, coins.vout, 0) + VarInt.Code(coins.nHeight))))
  }

  // ---------- reading ----------

  predicate BitSet(b: nat, p: nat) {
    (b / Pow2(p)) % 2 == 1
  }

  function EightBits(b: nat): seq<bool> {
    seq(8, p requires p >= 0 => BitSet(b, p))
  }

  /** Read mask bytes until k of them were not zero. */
  function ParseMask(s: seq<Byte>, k: nat, avail: seq<bool>): Option<(seq<bool>, seq<Byte>)> {
    if k == 0 then Some((avail, s))
    else if s == [] then None
    else ParseMask(s[1..], if s[0] != 0 then k - 1 else k, avail + EightBits(s[0]))
  }

  function ParseOuts(c: Curve, s: seq<Byte>, avail: seq<bool>, i: nat): Option<(seq<TxOut>, seq<Byte>)>
    requires i <= |avail|
    decreases |avail| - i
  {
    if i == |avail| then Some(([], s))
    else if !avail[i] then
      match ParseOuts(c, s, avail, i + 1)
      case None => None
      case Some((outs, r)) => Some(([NULL_OUT] + outs, r))
    else
      match ParseTxOut(c, s)
      case None => None
      case Some((o, r)) =>
        match ParseOuts(c, r, avail, i + 1)
        case None => None
        case Some((outs, r')) => Some(([o] + outs, r'))
  }

  function ToInt32(x: nat): int {
    if x >= MAX32 / 2 then x - MAX32 else x
  }

  function ParseCoins(c: Curve, s: seq<Byte>): Option<(CoinsValue, seq<Byte>)> {
    match VarInt.Read(s, MAX32)
    case None => None
    case Some((version, s1)) =>
      match VarInt.Read(s1, MAX32)
      case None => None
      case Some((code, s2)) =>
        match ParseMask(s2, code / 16 + (if BitSet(code, 2) || BitSet(code, 3) then 0 else 1), [BitSet(code, 2), BitSet(code, 3)])
        case None => None
        case Some((avail, s3)) =>
          match ParseOuts(c, s3, avail, 0)
          case None => None
          case Some((outs, s4)) =>
            match VarInt.Read(s4, MAX32)
            case None => None
            case Some((height, s5)) =>
              Some((CoinsValue(BitSet(code, 0), BitSet(code, 1), Cleaned(outs), ToInt32(height), ToInt32(version)), s5))
  }

  // ---------- the mask ----------

  /** A bit of a mask byte says whether its output is unspent. */
  lemma {:induction false} MaskBit(vout: seq<TxOut>, b: nat, i: nat, p: nat)
    requires i + p < 8
    ensures BitSet(MaskFrom(vout, b, i), p) <==> IsAvailable(vout, 2 + 8 * b + i + p)
    decreases p
  {
    hide BitSet, IsAvailable;
    var rest := MaskFrom(vout, b, i + 1);
    var m := MaskFrom(vout, b, i);
    assert m == Avail(vout, 2 + 8 * b + i) + 2 * rest;
    hide MaskFrom;
    if p == 0 {
      LowBit(m);
    } else {
      MaskBit(vout, b, i + 1, p - 1);
      HalfBit(m, rest, p);
    }
  }

  lemma HalfBit(m: nat, rest: nat, p: nat)
    requires p > 0 && m / 2 == rest
    ensures BitSet(m, p) == BitSet(rest, p - 1)
  {
    var q := Pow2(p - 1);
    assert Pow2(p) == 2 * q;
    hide Pow2;
    HalfTwice(m, q);
  }

  lemma HalfTwice(m: nat, q: nat)
    requires q >= 1
    ensures m / (2 * q) == (m / 2) / q
  {
    var a, r := m / 2 / q, m / 2 % q;
    assert m / 2 == a * q + r;
    Mul3(a, 2, q);
    assert m == a * (2 * q) + (2 * r + m % 2);
    DivModIs(m, a, 2 * r + m % 2, 2 * q);
  }

  function AvailTo(vout: seq<TxOut>, k: nat): seq<bool> {
    seq(k, i requires i >= 0 => IsAvailable(vout, i))
  }

  lemma EightMore(vout: seq<TxOut>, b: nat)
    ensures AvailTo(vout, 2 + 8 * b) + EightBits(MaskByte(vout, b)) == AvailTo(vout, 2 + 8 * (b + 1))
  {
    hide BitSet, IsAvailable, MaskFrom;
    forall p | 0 <= p < 8 ensures BitSet(MaskByte(vout, b), p) == IsAvailable(vout, 2 + 8 * b + p) {
      MaskBit(vout, b, 0, p);
    }
  }

  lemma {:induction false} CountMono(vout: seq<TxOut>, b: nat, n: nat)
    requires b <= n
    ensures Count(vout, b) <= Count(vout, n)
  {
    hide MaskByte;
    if b < n {
      CountMono(vout, b, n - 1);
      CountStep(vout, n - 1);
    }
  }

  /** Reading as many bytes that are not zero as were written reads the whole mask. */
  lemma {:induction false} MaskRead(vout: seq<TxOut>, b: nat, n: nat, rest: seq<Byte>)
    requires b <= n && (n > 0 ==> MaskByte(vout, n - 1) != 0)
    ensures Count(vout, n) >= Count(vout, b)
    ensures |Mask(vout, n)| == n
    ensures ParseMask(Mask(vout, n)[b..] + rest, Count(vout, n) - Count(vout, b), AvailTo(vout, 2 + 8 * b)) == Some((AvailTo(vout, 2 + 8 * n), rest))
    decreases n - b
  {
    hide MaskByte, EightBits, AvailTo, Mask, ParseMask, Count;
    CountMono(vout, b, n);
    if b == n {
      MaskEnd(vout, n, rest, AvailTo(vout, 2 + 8 * n));
    } else {
      CountMono(vout, b, n - 1);
      CountStep(vout, b);
      CountStep(vout, n - 1);
      MaskRead(vout, b + 1, n, rest);
      ByteFits(vout, b);
      EightMore(vout, b);
      MaskNext(vout, b, n, rest);
      MaskStep(Mask(vout, n)[b..] + rest, Count(vout, n) - Count(vout, b), AvailTo(vout, 2 + 8 * b), MaskByte(vout, b), Mask(vout, n)[b + 1..] + rest);
    }
  }

  lemma CountStep(vout: seq<TxOut>, b: nat)
    ensures Count(vout, b + 1) == Count(vout, b) + if MaskByte(vout, b) != 0 then 1 else 0
  {
    hide MaskByte;
  }

  lemma MaskEnd(vout: seq<TxOut>, n: nat, rest: seq<Byte>, avail: seq<bool>)
    ensures |Mask(vout, n)| == n && ParseMask(Mask(vout, n)[n..] + rest, 0, avail) == Some((avail, rest))
  {
    hide MaskByte;
    assert Mask(vout, n)[n..] + rest == rest;
  }

  lemma MaskNext(vout: seq<TxOut>, b: nat, n: nat, rest: seq<Byte>)
    requires b < n && MaskByte(vout, b) < 256
    ensures |Mask(vout, n)| == n
    ensures Mask(vout, n)[b..] + rest == [MaskByte(vout, b) as Byte] + (Mask(vout, n)[b + 1..] + rest)
  {
    hide MaskByte;
  }

  lemma MaskStep(s: seq<Byte>, k: nat, avail: seq<bool>, byte: Byte, tail: seq<Byte>)
    requires k > 0 && s == [byte] + tail
    ensures ParseMask(s, k, avail) == ParseMask(tail, if byte != 0 then k - 1 else k, avail + EightBits(byte))
  {
    assert s[1..] == tail;
    hide EightBits;
  }

  // ---------- the outputs ----------

  /** The outputs as they are read, from i to m. */
  function Back(vout: seq<TxOut>, i: nat, m: nat): (r: seq<TxOut>)
    requires i <= m
    ensures |r| == m - i
    decreases m - i
  {
    if i == m then [] else [if IsAvailable(vout, i) then Stored(vout[i]) else NULL_OUT] + Back(vout, i + 1, m)
  }

  lemma {:induction false} OutsRead(c: Curve, vout: seq<TxOut>, i: nat, m: nat, rest: seq<Byte>)
    requires c.Sound() && i <= |vout| <= m && (forall j | 0 <= j < |vout| && !vout[j].IsNull() :: Storable(vout[j]))
    ensures ParseOuts(c, Outs(c, vout, i) + rest, AvailTo(vout, m), i) == Some((Back(vout, i, m), rest))
    decreases |vout| - i
  {
    hide Curve.Sound, ParseTxOut, TxOutBytes, Storable;
    if i == |vout| {
      assert Outs(c, vout, i) + rest == rest;
      NullsRead(c, vout, i, m, rest);
    } else {
      OutsRead(c, vout, i + 1, m, rest);
      if vout[i].IsNull() {
        assert Outs(c, vout, i) == Outs(c, vout, i + 1);
      } else {
        var bytes, tail := TxOutBytes(c, vout[i]), Outs(c, vout, i + 1) + rest;
        assert Outs(c, vout, i) + rest == bytes + tail;
        TxOutRoundTrip(c, vout[i], tail);
      }
    }
  }

  lemma {:induction false} NullsRead(c: Curve, vout: seq<TxOut>, i: nat, m: nat, rest: seq<Byte>)
    requires |vout| <= i <= m
    ensures ParseOuts(c, rest, AvailTo(vout, m), i) == Some((Back(vout, i, m), rest))
    decreases m - i
  {
    if i < m {
      NullsRead(c, vout, i + 1, m, rest);
    }
  }

  lemma {:induction false} BackAt(vout: seq<TxOut>, i: nat, m: nat, j: nat)
    requires i <= j < m
    ensures Back(vout, i, m)[j - i] == if IsAvailable(vout, j) then Stored(vout[j]) else NULL_OUT
    decreases j - i
  {
    if i < j {
      BackAt(vout, i + 1, m, j);
    }
  }

  /** Outputs as they come back: spent ones as null, unspent ones without their memory-only field. */
  function Kept(vout: seq<TxOut>): seq<TxOut> {
    seq(|vout|, i requires 0 <= i < |vout| => if vout[i].IsNull() then NULL_OUT else Stored(vout[i]))
  }

  /** The padding that the mask brings with it is cleaned away. */
  lemma CleanedBack(vout: seq<TxOut>, m: nat)
    requires IsClean(vout) && |vout| <= m
    ensures Cleaned(Back(vout, 0, m)) == Kept(vout)
  {
    var back, kept := Back(vout, 0, m), Kept(vout);
    forall j | 0 <= j < m ensures back[j] == if IsAvailable(vout, j) then Stored(vout[j]) else NULL_OUT {
      BackAt(vout, 0, m, j);
    }
    assert kept == back[..|vout|];
    CleanedUnique(back, kept);
  }

  // ---------- the round trip ----------

  /** The mask reaches to the last output. */
  lemma MaskReaches(vout: seq<TxOut>)
    requires IsClean(vout)
    ensures 2 + 8 * MaskSize(vout) >= |vout|
    ensures MaskCode(vout) == Count(vout, MaskSize(vout)) && (MaskSize(vout) > 0 ==> MaskByte(vout, MaskSize(vout) - 1) != 0)
    ensures vout != [] && !IsAvailable(vout, 0) && !IsAvailable(vout, 1) ==> MaskCode(vout) > 0
  {
    hide MaskFrom, BitSet, Count;
    var n := MaskBytes(vout);
    NoCount(vout);
    LastUsedIs(vout, n);
    if |vout| > 2 {
      var p := (|vout| - 3) % 8;
      assert 2 + 8 * (n - 1) + p == |vout| - 1;
      MaskBit(vout, n - 1, 0, p);
      ZeroBits(p);
      assert MaskByte(vout, n - 1) != 0;
      CountStep(vout, n - 1);
    }
  }

  lemma NoCount(vout: seq<TxOut>)
    ensures Count(vout, 0) == 0
  {
  }

  lemma ZeroBits(p: nat)
    ensures !BitSet(0, p)
  {
    DivModIs(0, 0, 0, Pow2(p));
  }

  lemma {:induction false} CountBound(vout: seq<TxOut>, n: nat)
    ensures Count(vout, n) <= n
  {
    if n > 0 {
      CountBound(vout, n - 1);
    }
  }

  /** The flags can be read off the header code, and the number of mask bytes that are not zero follows from it. */
  lemma HeaderRead(coins: CoinsValue)
    requires IsClean(coins.vout) && coins.vout != [] && |coins.vout| < MAX32 / 4
    ensures var code := HeaderCode(coins);
            && 0 <= code < MAX32
            && BitSet(code, 0) == coins.fCoinBase && BitSet(code, 1) == coins.fCoinStake
            && BitSet(code, 2) == IsAvailable(coins.vout, 0) && BitSet(code, 3) == IsAvailable(coins.vout, 1)
            && code / 16 + (if BitSet(code, 2) || BitSet(code, 3) then 0 else 1) == MaskCode(coins.vout)
  {
    hide MaskByte, MaskSize, IsAvailable, BitSet, IsClean, Count;
    MaskReaches(coins.vout);
    CountBound(coins.vout, MaskBytes(coins.vout));
    var first, second := Avail(coins.vout, 0), Avail(coins.vout, 1);
    FlagBits(MaskCode(coins.vout) - (if first + second > 0 then 0 else 1),
             if coins.fCoinBase then 1 else 0, if coins.fCoinStake then 1 else 0, first, second);
  }

  lemma FlagBits(k: nat, f0: nat, f1: nat, f2: nat, f3: nat)
    requires f0 <= 1 && f1 <= 1 && f2 <= 1 && f3 <= 1
    ensures var code := 16 * k + f0 + 2 * f1 + 4 * f2 + 8 * f3;
            && BitSet(code, 0) == (f0 == 1) && BitSet(code, 1) == (f1 == 1) && BitSet(code, 2) == (f2 == 1) && BitSet(code, 3) == (f3 == 1)
            && code / 16 == k
  {
    hide BitSet;
    var c1 := f1 + 2 * (f2 + 2 * (f3 + 2 * k));
    LowBit(f0 + 2 * c1);
    HalfBit(f0 + 2 * c1, c1, 1);
    HalfBit(f0 + 2 * c1, c1, 2);
    HalfBit(f0 + 2 * c1, c1, 3);
    var c2 := f2 + 2 * (f3 + 2 * k);
    LowBit(c1);
    HalfBit(c1, c2, 1);
    HalfBit(c1, c2, 2);
    LowBit(c2);
    HalfBit(c2, f3 + 2 * k, 1);
    LowBit(f3 + 2 * k);
  }

  lemma LowBit(x: nat)
    ensures BitSet(x, 0) <==> x % 2 == 1
  {
    assert Pow2(0) == 1;
  }

  /** Coins as they are read back. A negative number keeps its last seven bits only. */
  function AsRead(coins: CoinsValue): CoinsValue {
    coins.(vout := Kept(coins.vout), nVersion := NumberRead(coins.nVersion), nHeight := NumberRead(coins.nHeight))
  }

  ghost predicate Serializable(coins: CoinsValue) {
    && IsClean(coins.vout) && coins.vout != [] && |coins.vout| < MAX32 / 4
    && (forall j | 0 <= j < |coins.vout| && !coins.vout[j].IsNull() :: Storable(coins.vout[j]))
    && coins.nVersion < MAX32 / 2 && coins.nHeight < MAX32 / 2
  }

  lemma NumberBack(n: int, rest: seq<Byte>)
    requires n < MAX32 / 2
    ensures NumberRead(n) >= 0 && NumberRead(n) < MAX32 / 2 && VarInt.Read(VarInt.Code(n) + rest, MAX32) == Some((NumberRead(n), rest))
    ensures ToInt32(NumberRead(n)) == NumberRead(n)
  {
    hide VarInt.Read, VarInt.Code;
    if n < 0 {
      VarInt.CodeOfNegative(n);
    }
    VarInt.ReadCode(NumberRead(n), rest, MAX32);
  }

  /** Reading undoes writing, and leaves what follows. */
  lemma RoundTrip(c: Curve, coins: CoinsValue, rest: seq<Byte>)
    requires c.Sound() && Serializable(coins)
    ensures ParseCoins(c, CoinsBytes(c, coins) + rest) == Some((AsRead(coins), rest))
  {
    hide Curve.Sound, ParseMask, ParseOuts, Outs, Mask, MaskCode, MaskSize, HeaderCode, VarInt.Read, VarInt.Code, BitSet, Count, AvailTo, Back, Cleaned, ToInt32, Kept, ParseCoins, CoinsBytes, Storable, IsAvailable, MaskByte;
    var vout := coins.vout;
    var n := MaskSize(vout);
    var code := HeaderCode(coins);
    var s4 := VarInt.Code(coins.nHeight) + rest;
    var s3 := Outs(c, vout, 0) + s4;
    var s2 := Mask(vout, n) + s3;
    var s1 := VarInt.Code(code) + s2;
    BytesAre(c, coins, rest);
    NumberBack(coins.nVersion, s1);
    HeaderRead(coins);
    VarInt.ReadCode(code, s2, MAX32);
    MaskReaches(vout);
    WholeMask(vout, n, s3);
    OutsRead(c, vout, 0, 2 + 8 * n, s4);
    CleanedBack(vout, 2 + 8 * n);
    NumberBack(coins.nHeight, rest);
    ParseIs(c, VarInt.Code(coins.nVersion) + s1, NumberRead(coins.nVersion), s1, code, s2, AvailTo(vout, 2 + 8 * n), s3,
            Back(vout, 0, 2 + 8 * n), s4, NumberRead(coins.nHeight), rest);
  }

  lemma WholeMask(vout: seq<TxOut>, n: nat, s: seq<Byte>)
    requires n > 0 ==> MaskByte(vout, n - 1) != 0
    ensures ParseMask(Mask(vout, n) + s, Count(vout, n), [IsAvailable(vout, 0), IsAvailable(vout, 1)]) == Some((AvailTo(vout, 2 + 8 * n), s))
  {
    hide ParseMask, Mask, IsAvailable, MaskByte;
    MaskRead(vout, 0, n, s);
    assert AvailTo(vout, 2) == [IsAvailable(vout, 0), IsAvailable(vout, 1)];
    assert Mask(vout, n)[0..] == Mask(vout, n);
  }

  lemma BytesAre(c: Curve, coins: CoinsValue, rest: seq<Byte>)
    ensures CoinsBytes(c, coins) + rest ==
            VarInt.Code(coins.nVersion) + (VarInt.Code(HeaderCode(coins)) + (Mask(coins.vout, MaskSize(coins.vout))
            + (Outs(c, coins.vout, 0) + (VarInt.Code(coins.nHeight) + rest))))
  {
    hide VarInt.Code, HeaderCode, Mask, MaskSize, Outs;
    var v, h, m, o, t := VarInt.Code(coins.nVersion), VarInt.Code(HeaderCode(coins)), Mask(coins.vout, MaskSize(coins.vout)), Outs(c, coins.vout, 0), VarInt.Code(coins.nHeight);
    Assoc(v, h + (m + (o + t)), rest);
    Assoc(h, m + (o + t), rest);
    Assoc(m, o + t, rest);
    Assoc(o, t, rest);
  }

  lemma ParseIs(c: Curve, s: seq<Byte>, version: nat, s1: seq<Byte>, code: nat, s2: seq<Byte>, avail: seq<bool>, s3: seq<Byte>,
                outs: seq<TxOut>, s4: seq<Byte>, height: nat, s5: seq<Byte>)
    requires VarInt.Read(s, MAX32) == Some((version, s1)) && VarInt.Read(s1, MAX32) == Some((code, s2))
    requires ParseMask(s2, code / 16 + (if BitSet(code, 2) || BitSet(code, 3) then 0 else 1), [BitSet(code, 2), BitSet(code, 3)]) == Some((avail, s3))
    requires ParseOuts(c, s3, avail, 0) == Some((outs, s4)) && VarInt.Read(s4, MAX32) == Some((height, s5))
    ensures ParseCoins(c, s) == Some((CoinsValue(BitSet(code, 0), BitSet(code, 1), Cleaned(outs), ToInt32(height), ToInt32(version)), s5))
  {
    hide VarInt.Read, ParseMask, ParseOuts, BitSet, Cleaned, ToInt32;
  }

  /**
     Coins come back unchanged exactly if version and height are not negative and outputs have the memory-only
     fields of new ones: the compact integers of the source do not carry a sign.
     */
  lemma UnchangedIff(c: Curve, coins: CoinsValue, rest: seq<Byte>)
    requires c.Sound() && Serializable(coins)
    ensures ParseCoins(c, CoinsBytes(c, coins) + rest) == Some((coins, rest)) <==>
            && coins.nVersion >= 0 && coins.nHeight >= 0
            && forall i | 0 <= i < |coins.vout| :: coins.vout[i] == NULL_OUT || (!coins.vout[i].IsNull() && coins.vout[i].nRounds == NULL_OUT.nRounds)
  {
    hide ParseCoins, CoinsBytes, Curve.Sound, Storable;
    RoundTrip(c, coins, rest);
    var kept := Kept(coins.vout);
    if forall i | 0 <= i < |coins.vout| :: coins.vout[i] == NULL_OUT || (!coins.vout[i].IsNull() && coins.vout[i].nRounds == NULL_OUT.nRounds) {
      assert kept == coins.vout;
    } else {
      var i :| 0 <= i < |coins.vout| && !(coins.vout[i] == NULL_OUT || (!coins.vout[i].IsNull() && coins.vout[i].nRounds == NULL_OUT.nRounds));
      assert kept[i] != coins.vout[i];
    }
  }

  /** A version of -1 comes back as 127. */
  lemma NegativeVersionIsLost(c: Curve)
    requires c.Sound()
    ensures var coins := CoinsValue(false, false, [TxOut(1, [], -10)], 1, -1);
            ParseCoins(c, CoinsBytes(c, coins)) == Some((coins.(nVersion := 127), []))
  {
    hide ParseCoins, CoinsBytes, Curve.Sound;
    var coins := CoinsValue(false, false, [TxOut(1, [], -10)], 1, -1);
    RoundTrip(c, coins, []);
    assert Kept(coins.vout) == coins.vout;
    assert CoinsBytes(c, coins) + [] == CoinsBytes(c, coins);
  }
}
