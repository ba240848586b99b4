/** Undo records in a stream (src/undo.h:35-60): what DisconnectBlock reads is what ConnectBlock wrote, but for the sign of a version. */
module UndoCodec {
  import opened Options
  import opened Coins
  import opened BlockCoins
  import opened Compressor
  import opened CoinsCodec
  import VarInt

  /** Height and flags in one unsigned 32-bit number. */
  function UndoCode(u: TxInUndo): nat {
    (u.nHeight * 4 + (if u.fCoinBase then 2 else 0) + (if u.fCoinStake then 1 else 0)) % MAX32
  }

  /** The version is only there if the height is. */
  function UndoBytes(c: Curve, u: TxInUndo): seq<Byte> {
    VarInt.Code(UndoCode(u)) + ((if u.nHeight > 0 then VarInt.Code(u.nVersion) else []) + TxOutBytes(c, u.txout))
  }

  function ParseVersion(s: seq<Byte>, nHeight: nat): Option<(int, seq<Byte>)> {
    if nHeight == 0 then Some((0, s)) else
      match VarInt.Read(s, MAX32)
      case None => None
      case Some((x, r)) => Some((ToInt32(x), r))
  }

  /** Read a record into a new one. */
  function ParseUndo(c: Curve, s: seq<Byte>): Option<(TxInUndo, seq<Byte>)> {
    match VarInt.Read(s, MAX32)
    case None => None
    case Some((code, s1)) =>
      match ParseVersion(s1, code / 4)
      case None => None
      case Some((version, s2)) =>
        match ParseTxOut(c, s2)
        case None => None
        case Some((o, s3)) => Some((TxInUndo(o, code / 2 % 2 == 1, code % 2 == 1, code / 4, version), s3))
  }

  predicate Recordable(u: TxInUndo) {
    Storable(u.txout) && 0 <= u.nHeight < MAX32 / 4 && -MAX32 / 2 <= u.nVersion < MAX32 / 2
  }

  /** Reading undoes writing, up to the sign of the version. */
  lemma RecordBack(c: Curve, u: TxInUndo, rest: seq<Byte>)
    requires c.Sound() && Recordable(u)
    ensures ParseUndo(c, UndoBytes(c, u) + rest) == Some((AsStored(u), rest))
  {
    hide Curve.Sound, VarInt.Code, VarInt.Read, TxOutBytes, ParseTxOut, Storable, ParseVersion, ParseUndo;
    var code, version, out := VarInt.Code(UndoCode(u)), if u.nHeight > 0 then VarInt.Code(u.nVersion) else [], TxOutBytes(c, u.txout);
    Assoc(code, version + out, rest);
    Assoc(version, out, rest);
    VarInt.ReadCode(UndoCode(u), version + (out + rest), MAX32);
    VersionBack(u, out + rest);
    TxOutRoundTrip(c, u.txout, rest);
    CodeParts(u);
    hide UndoCode;
    var o := Stored(u.txout);
    ParseUndoIs(c, UndoBytes(c, u) + rest, UndoCode(u), version + (out + rest), AsStored(u).nVersion, out + rest, o, rest);
  }

  lemma CodeParts(u: TxInUndo)
    requires Recordable(u)
    ensures UndoCode(u) < MAX32 && UndoCode(u) / 4 == u.nHeight
    ensures (UndoCode(u) / 2 % 2 == 1) == u.fCoinBase && (UndoCode(u) % 2 == 1) == u.fCoinStake
  {
  }

  lemma ParseUndoIs(c: Curve, s: seq<Byte>, code: nat, s1: seq<Byte>, version: int, s2: seq<Byte>, o: TxOut, s3: seq<Byte>)
    requires VarInt.Read(s, MAX32) == Some((code, s1)) && ParseVersion(s1, code / 4) == Some((version, s2)) && ParseTxOut(c, s2) == Some((o, s3))
    ensures ParseUndo(c, s) == Some((TxInUndo(o, code / 2 % 2 == 1, code % 2 == 1, code / 4, version), s3))
  {
    hide VarInt.Read, ParseVersion, ParseTxOut;
  }

  lemma VersionBack(u: TxInUndo, rest: seq<Byte>)
    requires Recordable(u)
    ensures ParseVersion((if u.nHeight > 0 then VarInt.Code(u.nVersion) else []) + rest, u.nHeight) == Some((AsStored(u).nVersion, rest))
  {
    hide VarInt.Code, VarInt.Read, Storable, ToInt32;
    if u.nHeight > 0 {
      NumberBack(u.nVersion, rest);
    } else {
      assert [] + rest == rest;
    }
  }

  /** A record comes back unchanged exactly if the version that goes with its height is not negative. */
  lemma RecordUnchangedIff(c: Curve, u: TxInUndo, rest: seq<Byte>)
    requires c.Sound() && Recordable(u) && u.txout.nRounds == NULL_OUT.nRounds && (u.nHeight == 0 ==> u.nVersion == 0)
    ensures ParseUndo(c, UndoBytes(c, u) + rest) == Some((u, rest)) <==> u.nVersion >= 0
  {
    hide ParseUndo, UndoBytes, Curve.Sound, Storable;
    RecordBack(c, u, rest);
  }

  /** All coins have versions of 32 bits, and heights that fit next to the flags of a record. */
  predicate Versioned(v: View) {
    forall h | h in v :: 0 <= v[h].nHeight < MAX32 / 4 && -MAX32 / 2 <= v[h].nVersion < MAX32 / 2
  }

  lemma {:induction false} SpendsRecordable(v: View, vin: seq<OutPoint>)
    requires GoodView(v) && Versioned(v) && CanSpendAll(v, vin)
    ensures forall u | u in UndosOf(v, vin) :: Recordable(u)
    ensures Versioned(SpendAll(v, vin))
    decreases |vin|
  {
    if vin != [] {
      OneRecordable(v, vin[0]);
      SpendKeepsGood(v, vin[0]);
      SpendKeeps(v, vin[0], 0);
      hide Spend, SpendUndo, CanSpend, GoodView, Recordable;
      SpendsRecordable(Spend(v, vin[0]), vin[1..]);
    }
  }

  lemma OneRecordable(v: View, out: OutPoint)
    requires GoodView(v) && Versioned(v) && CanSpend(v, out)
    ensures Recordable(SpendUndo(v, out))
  {
    assert v[out.hash].vout[out.n] in v[out.hash].vout;
  }

  /** A record that is read back from its bytes as DisconnectBlock uses it. */
  ghost predicate ReadsBack(c: Curve, u: TxInUndo, rest: seq<Byte>) {
    ParseUndo(c, UndoBytes(c, u) + rest) == Some((AsStored(u), rest))
  }

  /** Every undo record that connecting a block leaves is one. */
  lemma {:induction false} BlockUndoBack(c: Curve, v: View, txs: seq<Tx>, height: int, rest: seq<Byte>)
    requires c.Sound() && GoodView(v) && Versioned(v) && 1 <= height < MAX32 / 4 && CanConnect(v, txs, height)
    requires forall tx | tx in txs :: Checked(tx) && -MAX32 / 2 <= tx.nVersion < MAX32 / 2
    ensures forall undos, u | undos in BlockUndo(v, txs, height) && u in undos :: ReadsBack(c, u, rest)
    decreases |txs|
  {
    hide Curve.Sound, ReadsBack, GoodView, Checked, Versioned, ApplyTx, CanSpendAll, UndosOf, Inputs;
    if txs != [] {
      TxUndoBack(c, v, txs[0], height, rest);
      BlockUndoBack(c, ApplyTx(v, txs[0], height), txs[1..], height, rest);
    }
  }

  lemma TxUndoBack(c: Curve, v: View, tx: Tx, height: int, rest: seq<Byte>)
    requires c.Sound() && GoodView(v) && Versioned(v) && 1 <= height < MAX32 / 4 && CanSpendAll(v, Inputs(tx))
    requires Checked(tx) && -MAX32 / 2 <= tx.nVersion < MAX32 / 2
    ensures forall u | u in UndosOf(v, Inputs(tx)) :: ReadsBack(c, u, rest)
    ensures GoodView(ApplyTx(v, tx, height)) && Versioned(ApplyTx(v, tx, height))
  {
    hide Curve.Sound, ParseUndo, UndoBytes, AsStored, GoodView, Checked, CanSpendAll, SpendAll, Recordable, Inputs, UndosOf;
    SpendsRecordable(v, Inputs(tx));
    ApplyTxGood(v, tx, height);
    PutAt(SpendAll(v, Inputs(tx)), tx.txid, FromTx(tx, height));
    forall u | u in UndosOf(v, Inputs(tx)) ensures ReadsBack(c, u, rest) {
      RecordBack(c, u, rest);
    }
  }
}
