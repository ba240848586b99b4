/**
 The coins of one transaction as an object (src/coins.h:74-286, src/coins.cpp:16-51): its methods work in place and
 compute the functions that the other modules reason about.
 */
module CCoins {
  import opened Arithmetic
  import opened Options
  import opened Limbs
  import opened Coins
  import opened Compressor
  import opened CoinsCodec
  import VarInt

  class CCoins {
    var fCoinBase: bool
    var fCoinStake: bool
    var vout: seq<TxOut>
    var nHeight: int
    var nVersion: int

    function Value(): CoinsValue
      reads this
    {
      CoinsValue(fCoinBase, fCoinStake, vout, nHeight, nVersion)
    }

    constructor ()
      ensures Value() == NO_COINS
    {
      fCoinBase, fCoinStake, vout, nHeight, nVersion := false, false, [], 0, 0;
    }

    /** Drop spent outputs at the end. */
    method Cleanup()
      modifies this`vout
      ensures vout == Cleaned(old(vout))
    {
      while |vout| > 0 && vout[|vout| - 1].IsNull()
        invariant Cleaned(vout) == Cleaned(old(vout))
        decreases |vout|
      {
        vout := vout[..|vout| - 1];
      }
    }

    method ClearUnspendable()
      modifies this`vout
      ensures vout == Cleaned(WithoutUnspendable(old(vout)))
    {
      ghost var v := vout;
      for i := 0 to |vout|
        invariant |vout| == |v|
        invariant forall j | 0 <= j < |v| :: vout[j] == if j < i && v[j].IsUnspendable() then NULL_OUT else v[j]
      {
        if vout[i].IsUnspendable() {
          vout := vout[i := NULL_OUT];
        }
      }
      assert vout == WithoutUnspendable(v);
      Cleanup();
    }

    method FromTx(tx: Tx, nHeightIn: int)
      modifies this
      ensures Value() == Coins.FromTx(tx, nHeightIn)
    {
      fCoinBase := tx.IsCoinBase();
      fCoinStake := tx.IsCoinStake();
      vout := tx.vout;
      nHeight := nHeightIn;
      nVersion := tx.nVersion;
      ClearUnspendable();
    }

    /** Mark an output spent; the undo record has the metadata if it was the last one. */
    method Spend(n: nat) returns (undo: Option<TxInUndo>)
      modifies this`vout
      ensures undo.Some? <==> IsAvailable(old(vout), n)
      ensures undo.None? ==> vout == old(vout)
      ensures undo.Some? ==> Value() == SpentCoins(old(Value()), n)
      ensures undo.Some? ==> undo.value == (if vout == [] then TxInUndo(old(vout)[n], fCoinBase, fCoinStake, nHeight, nVersion)
                                             else TxInUndo(old(vout)[n], false, false, 0, 0))
    {
      if n >= |vout| {
        return None;
      }
      if vout[n].IsNull() {
        return None;
      }
      var u := TxInUndo(vout[n], false, false, 0, 0);
      vout := vout[n := NULL_OUT];
      Cleanup();
      if |vout| == 0 {
        u := u.(nHeight := nHeight, fCoinBase := fCoinBase, fCoinStake := fCoinStake, nVersion := nVersion);
      }
      undo := Some(u);
    }

    /** Is every output spent? */
    method IsPruned() returns (b: bool)
      ensures b <==> AllNull(vout)
    {
      for i := 0 to |vout|
        invariant forall j | 0 <= j < i :: vout[j].IsNull()
      {
        if !vout[i].IsNull() {
          return false;
        }
      }
      return true;
    }

    /** The size of the mask and the number of its bytes that are not zero. */
    method CalcMaskSize() returns (nBytes: nat, nNonzeroBytes: nat)
      ensures nBytes == MaskSize(vout) && nNonzeroBytes == MaskCode(vout)
    {
      hide MaskByte, MaskFrom, Count;
      NoCount(vout);
      var nLastUsedByte := 0;
      nNonzeroBytes := 0;
      var b := 0;
      while 2 + b * 8 < |vout|
        invariant 0 <= b <= MaskBytes(vout)
        invariant nLastUsedByte == LastUsed(vout, b) && nNonzeroBytes == Count(vout, b)
      {
        var fZero := true;
        var i := 0;
        StartByte(vout, b);
        while i < 8 && 2 + b * 8 + i < |vout|
          invariant 0 <= i <= 8 && (MaskByte(vout, b) == 0 <==> fZero && MaskFrom(vout, b, i) == 0)
        {
          FromStep(vout, b, i);
          if !vout[2 + b * 8 + i].IsNull() {
            fZero := false;
          }
          i := i + 1;
        }
        Beyond(vout, b, i);
        CountStep(vout, b);
        if !fZero {
          nLastUsedByte := b + 1;
          nNonzeroBytes := nNonzeroBytes + 1;
        }
        b := b + 1;
      }
      nBytes := nLastUsedByte;
    }

    /** Only coins with an unspent output can be written: the source asserts it. */
    method Serialize(c: Curve) returns (out: seq<Byte>)
      requires IsClean(vout) && vout != [] && |vout| < MAX32 / 4 && nVersion < MAX32 / 2 && nHeight < MAX32 / 2
      ensures out == CoinsBytes(c, Value())
    {
      hide MaskCode, MaskSize, Mask, Outs, VarInt.Code, HeaderCode, Pow2;
      var nMaskSize, nMaskCode := CalcMaskSize();
      var fFirst := |vout| > 0 && !vout[0].IsNull();
      var fSecond := |vout| > 1 && !vout[1].IsNull();
      MaskReaches(vout);
      assert fFirst || fSecond || nMaskCode > 0;
      var nCode := 16 * (nMaskCode - if fFirst || fSecond then 0 else 1) + (if fCoinBase then 1 else 0) + (if fCoinStake then 2 else 0)
        + (if fFirst then 4 else 0) + if fSecond then 8 else 0;
      HeaderIs(Value(), nCode);
      HeaderRead(Value());
      Pow32();
      var version := VarInt.WriteVarInt(nVersion, 32);
      var code := VarInt.WriteVarInt(nCode, 32);
      var mask := WriteMask(vout, nMaskSize);
      var outs := WriteOuts(c, vout);
      var height := VarInt.WriteVarInt(nHeight, 32);
      out := version + (code + (mask + (outs + height)));
    }

    /** Read coins in place of these; None at an early end of the stream. */
    method Unserialize(c: Curve, s: seq<Byte>) returns (rest: Option<seq<Byte>>)
      modifies this
      ensures match ParseCoins(c, s)
              case None => rest == None
              case Some((coins, r)) => rest == Some(r) && Value() == coins
    {
      hide VarInt.Read, BitSet, ParseMask, ParseOuts, ToInt32, Cleaned;
      var version := VarInt.ReadVarInt(s, MAX32);
      if version.None? {
        return None;
      }
      nVersion := ToInt32(version.value.0);
      var code := VarInt.ReadVarInt(version.value.1, MAX32);
      if code.None? {
        return None;
      }
      var nCode := code.value.0;
      fCoinBase := BitSet(nCode, 0);
      fCoinStake := BitSet(nCode, 1);
      var vAvail := [BitSet(nCode, 2), BitSet(nCode, 3)];
      var mask := ReadMask(code.value.1, nCode / 16 + (if BitSet(nCode, 2) || BitSet(nCode, 3) then 0 else 1), vAvail);
      if mask.None? {
        return None;
      }
      var outs := ReadOuts(c, mask.value.1, mask.value.0);
      if outs.None? {
        return None;
      }
      vout := outs.value.0;
      var height := VarInt.ReadVarInt(outs.value.1, MAX32);
      if height.None? {
        return None;
      }
      nHeight := ToInt32(height.value.0);
      Cleanup();
      rest := Some(height.value.1);
    }
  }

  lemma FromStep(vout: seq<TxOut>, b: nat, i: nat)
    requires i < 8
    ensures MaskFrom(vout, b, i) == Avail(vout, 2 + 8 * b + i) + 2 * MaskFrom(vout, b, i + 1)
  {
    hide IsAvailable;
  }

  /** There are no bits beyond the last output. */
  lemma {:induction false} Beyond(vout: seq<TxOut>, b: nat, i: nat)
    requires i >= 8 || 2 + 8 * b + i >= |vout|
    ensures MaskFrom(vout, b, i) == 0
    decreases 8 - i
  {
    if i < 8 {
      Beyond(vout, b, i + 1);
    }
  }

  lemma HeaderIs(coins: CoinsValue, code: int)
    requires var first, second := Avail(coins.vout, 0), Avail(coins.vout, 1);
             code == 16 * (MaskCode(coins.vout) - if first == 1 || second == 1 then 0 else 1) + (if coins.fCoinBase then 1 else 0)
                     + (if coins.fCoinStake then 2 else 0) + (if first == 1 then 4 else 0) + if second == 1 then 8 else 0
    ensures code == HeaderCode(coins)
  {
    hide MaskCode;
  }

  /** The mask bytes, bit by bit. */
  method WriteMask(vout: seq<TxOut>, nMaskSize: nat) returns (out: seq<Byte>)
    ensures out == Mask(vout, nMaskSize)
  {
    hide MaskByte, Pow2, MaskFrom, BitOr;
    out := [];
    for b := 0 to nMaskSize
      invariant |out| == b && forall k | 0 <= k < b :: out[k] == MaskByte(vout, k)
    {
      var chAvail: nat, i := 0, 0;
      StartByte(vout, b);
      ByteFits(vout, b);
      while i < 8 && 2 + b * 8 + i < |vout|
        invariant 0 <= i <= 8 && chAvail < Pow2(i) && chAvail + MaskFrom(vout, b, i) * Pow2(i) == MaskByte(vout, b)
      {
        NextBit(vout, b, i, chAvail);
        if !vout[2 + b * 8 + i].IsNull() {
          chAvail := BitOr(chAvail, Pow2(i));
        }
        i := i + 1;
      }
      Beyond(vout, b, i);
      assert chAvail == MaskByte(vout, b);
      out := out + [chAvail];
    }
    assert forall k | 0 <= k < nMaskSize :: Mask(vout, nMaskSize)[k] == MaskByte(vout, k);
  }

  lemma StartByte(vout: seq<TxOut>, b: nat)
    ensures Pow2(0) == 1 && MaskFrom(vout, b, 0) == MaskByte(vout, b)
  {
  }

  /** One more bit of a mask byte. */
  lemma NextBit(vout: seq<TxOut>, b: nat, i: nat, ch: nat)
    requires i < 8 && ch < Pow2(i) && ch + MaskFrom(vout, b, i) * Pow2(i) == MaskByte(vout, b)
    ensures BitOr(ch, Pow2(i)) == ch + Pow2(i) && Pow2(i + 1) == 2 * Pow2(i)
    ensures ch + Avail(vout, 2 + 8 * b + i) * Pow2(i) + MaskFrom(vout, b, i + 1) * Pow2(i + 1) == MaskByte(vout, b)
  {
    hide Pow2, BitOr, MaskFrom, MaskByte, IsAvailable, Avail;
    FromStep(vout, b, i);
    PowDouble(i);
    BitSum(Avail(vout, 2 + 8 * b + i), MaskFrom(vout, b, i + 1), Pow2(i));
    DivModIs(Pow2(i), 1, 0, Pow2(i));
    OrIsPlus(Pow2(i), ch, i);
    OrSym(Pow2(i), ch);
  }

  lemma BitSum(a: int, r: int, p: int)
    ensures (a + 2 * r) * p == a * p + r * (2 * p)
  {
    Distribute(a, 2 * r, p);
    Mul3(r, 2, p);
    Mul3(2, r, p);
  }

  /** The unspent outputs. */
  method WriteOuts(c: Curve, vout: seq<TxOut>) returns (out: seq<Byte>)
    ensures out == Outs(c, vout, 0)
  {
    hide TxOutBytes;
    out := [];
    for i := 0 to |vout|
      invariant out + Outs(c, vout, i) == Outs(c, vout, 0)
    {
      if !vout[i].IsNull() {
        var o := WriteTxOut(c, vout[i]);
        assert out + (o + Outs(c, vout, i + 1)) == out + o + Outs(c, vout, i + 1);
        out := out + o;
      } else {
        assert Outs(c, vout, i) == Outs(c, vout, i + 1);
      }
    }
    assert out + [] == out;
  }

  method WriteTxOut(c: Curve, o: TxOut) returns (out: seq<Byte>)
    ensures out == TxOutBytes(c, o)
  {
    hide Pow2, VarInt.Code, Compress, CompressScript;
    var nVal := CompressAmount(o.nValue % MAX64);
    Pow64();
    var amount := VarInt.WriteVarInt(nVal, 64);
    var compr := CompressScript(c, o.script);
    if compr.Some? {
      return amount + compr.value;
    }
    var nSize := (|o.script| + SPECIAL_SCRIPTS) % MAX32;
    var size := VarInt.WriteVarInt(nSize, 32);
    return amount + (size + o.script);
  }

  lemma Pow64()
    ensures Pow2(64) == MAX64 && Pow2(32) == MAX32
  {
    Pow32();
    PowAdd(32, 32);
  }

  /** Read mask bytes until nMaskCode of them were not zero. */
  method ReadMask(s: seq<Byte>, nMaskCode0: nat, vAvail0: seq<bool>) returns (r: Option<(seq<bool>, seq<Byte>)>)
    ensures r == ParseMask(s, nMaskCode0, vAvail0)
    ensures r.Some? ==> |r.value.0| >= |vAvail0|
  {
    hide BitSet;
    var nMaskCode, vAvail, rest := nMaskCode0, vAvail0, s;
    while nMaskCode > 0
      invariant ParseMask(rest, nMaskCode, vAvail) == ParseMask(s, nMaskCode0, vAvail0) && |vAvail| >= |vAvail0|
      decreases |rest|
    {
      if rest == [] {
        return None;
      }
      var chAvail := rest[0];
      rest := rest[1..];
      ghost var before := vAvail;
      for p := 0 to 8
        invariant vAvail == before + EightBits(chAvail)[..p]
      {
        assert EightBits(chAvail)[..p + 1] == EightBits(chAvail)[..p] + [BitSet(chAvail, p)];
        vAvail := vAvail + [BitSet(chAvail, p)];
      }
      assert EightBits(chAvail)[..8] == EightBits(chAvail);
      if chAvail != 0 {
        nMaskCode := nMaskCode - 1;
      }
    }
    r := Some((vAvail, rest));
  }

  function Prepend(p: seq<TxOut>, r: Option<(seq<TxOut>, seq<Byte>)>): Option<(seq<TxOut>, seq<Byte>)> {
    match r
    case None => None
    case Some((outs, s)) => Some((p + outs, s))
  }

  /** Read the outputs that are there into a list of spent ones. */
  method ReadOuts(c: Curve, s: seq<Byte>, vAvail: seq<bool>) returns (r: Option<(seq<TxOut>, seq<Byte>)>)
    ensures r == ParseOuts(c, s, vAvail, 0)
  {
    hide ParseTxOut;
    var vout, rest := seq(|vAvail|, _ => NULL_OUT), s;
    PrependNone(ParseOuts(c, s, vAvail, 0));
    assert vout[..0] == [];
    for i := 0 to |vAvail|
      invariant |vout| == |vAvail| && forall j | i <= j < |vout| :: vout[j] == NULL_OUT
      invariant Prepend(vout[..i], ParseOuts(c, rest, vAvail, i)) == ParseOuts(c, s, vAvail, 0)
    {
      ghost var before := vout[..i];
      if vAvail[i] {
        var o := ParseTxOut(c, rest);
        if o.None? {
          return None;
        }
        ghost var tail := ParseOuts(c, o.value.1, vAvail, i + 1);
        vout, rest := vout[i := o.value.0], o.value.1;
        assert vout[..i + 1] == before + [o.value.0];
        PrependMore(before, o.value.0, tail);
      } else {
        assert vout[..i + 1] == before + [NULL_OUT];
        PrependMore(before, NULL_OUT, ParseOuts(c, rest, vAvail, i + 1));
      }
    }
    assert vout[..|vAvail|] == vout && vout + [] == vout;
    r := Some((vout, rest));
  }

  lemma PrependNone(r: Option<(seq<TxOut>, seq<Byte>)>)
    ensures Prepend([], r) == r
  {
    if r.Some? {
      assert [] + r.value.0 == r.value.0;
    }
  }

  lemma PrependMore(p: seq<TxOut>, o: TxOut, r: Option<(seq<TxOut>, seq<Byte>)>)
    ensures Prepend(p, Prepend([o], r)) == Prepend(p + [o], r)
  {
    if r.Some? {
      assert p + ([o] + r.value.0) == p + [o] + r.value.0;
    }
  }
}
