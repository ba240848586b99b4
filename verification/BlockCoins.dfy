/**
 What connecting a block does to the flat view of the coins, what its undo data records, and what
 disconnecting makes of that (src/main.cpp:1986-2000, 2111-2196, 2313-2357).
 */
module BlockCoins {
  import opened Coins

  /** The inputs that are spent: a coinbase spends none. */
  function Inputs(tx: Tx): seq<OutPoint> {
    if tx.IsCoinBase() then [] else tx.vin
  }

  predicate CanSpendAll(v: View, vin: seq<OutPoint>)
    decreases |vin|
  {
    vin == [] || (CanSpend(v, vin[0]) && CanSpendAll(Spend(v, vin[0]), vin[1..]))
  }

  function SpendAll(v: View, vin: seq<OutPoint>): View
    requires CanSpendAll(v, vin)
    decreases |vin|
  {
    if vin == [] then v else SpendAll(Spend(v, vin[0]), vin[1..])
  }

  function UndosOf(v: View, vin: seq<OutPoint>): (r: seq<TxInUndo>)
    requires CanSpendAll(v, vin)
    ensures |r| == |vin|
    decreases |vin|
  {
    if vin == [] then [] else [SpendUndo(v, vin[0])] + UndosOf(Spend(v, vin[0]), vin[1..])
  }

  /** Undo records as they are read back from disk. */
  function AllStored(undos: seq<TxInUndo>): (r: seq<TxInUndo>)
    ensures |r| == |undos| && forall i | 0 <= i < |r| :: r[i] == AsStored(undos[i])
  {
    seq(|undos|, i requires 0 <= i < |undos| => AsStored(undos[i]))
  }

  function BlockStored(undos: seq<seq<TxInUndo>>): (r: seq<seq<TxInUndo>>)
    ensures |r| == |undos| && forall i | 0 <= i < |r| :: r[i] == AllStored(undos[i])
  {
    seq(|undos|, i requires 0 <= i < |undos| => AllStored(undos[i]))
  }

  /** Inputs are restored last to first. */
  function UndoAll(v: View, vin: seq<OutPoint>, undos: seq<TxInUndo>): View
    requires |vin| == |undos|
  {
    if vin == [] then v else UndoSpend(UndoAll(v, vin[1..], undos[1..]), vin[0], undos[0])
  }

  predicate UndoAllClean(v: View, vin: seq<OutPoint>, undos: seq<TxInUndo>)
    requires |vin| == |undos|
  {
    vin == [] ||
    (UndoAllClean(v, vin[1..], undos[1..]) && UndoClean(UndoAll(v, vin[1..], undos[1..]), vin[0], undos[0]))
  }

  /** The transactions whose last output is spent here. */
  function FullySpent(vin: seq<OutPoint>, undos: seq<TxInUndo>): set<TxId>
    requires |vin| == |undos|
  {
    if vin == [] then {}
    else FullySpent(vin[1..], undos[1..]) + (if undos[0].nHeight != 0 then {vin[0].hash} else {})
  }

  predicate HaveInputs(v: View, tx: Tx) {
    forall out | out in Inputs(tx) :: CanSpend(v, out)
  }

  /** The assertion in UpdateCoins: inputs that are all there and distinct can be spent one after the other. */
  lemma {:induction false} HaveInputsSuffices(v: View, vin: seq<OutPoint>)
    requires GoodView(v) && forall out | out in vin :: CanSpend(v, out)
    requires forall i, j | 0 <= i < j < |vin| :: vin[i] != vin[j]
    ensures CanSpendAll(v, vin)
    decreases |vin|
  {
    if vin != [] {
      SpendKeepsGood(v, vin[0]);
      forall out | out in vin[1..] ensures CanSpend(Spend(v, vin[0]), out) {
        SpendOther(v, vin[0], out);
      }
      HaveInputsSuffices(Spend(v, vin[0]), vin[1..]);
    }
  }

  lemma SpendOther(v: View, out: OutPoint, other: OutPoint)
    requires CanSpend(v, out) && CanSpend(v, other) && other != out
    ensures CanSpend(Spend(v, out), other)
  {
    var c := v[out.hash];
    var s := c.vout[out.n := NULL_OUT];
    if other.hash == out.hash {
      assert s[other.n] == c.vout[other.n];
      PrunedIsEmpty(Cleaned(s));
      assert Cleaned(Cleaned(s)) == Cleaned(s);
    }
  }

  lemma {:induction false} SpendAllGood(v: View, vin: seq<OutPoint>)
    requires GoodView(v) && CanSpendAll(v, vin)
    ensures GoodView(SpendAll(v, vin))
    decreases |vin|
  {
    if vin != [] {
      SpendKeepsGood(v, vin[0]);
      SpendAllGood(Spend(v, vin[0]), vin[1..]);
    }
  }

  lemma {:induction false} UndoAllAfterSpendAll(v: View, vin: seq<OutPoint>, lost: set<TxId>)
    requires GoodView(v) && CanSpendAll(v, vin)
    ensures UndoAll(Worn(SpendAll(v, vin), lost), vin, AllStored(UndosOf(v, vin))) == Worn(v, lost + FullySpent(vin, UndosOf(v, vin)))
    ensures UndoAllClean(Worn(SpendAll(v, vin), lost), vin, AllStored(UndosOf(v, vin)))
    decreases |vin|
  {
    hide Spend, SpendUndo, UndoSpend, UndoClean, Worn, CanSpend, GoodView, AsStored;
    assert lost + {} == lost;
    if vin != [] {
      var v1, rest := Spend(v, vin[0]), vin[1..];
      SpendKeepsGood(v, vin[0]);
      UndoAllAfterSpendAll(v1, rest, lost);
      var lost1 := lost + FullySpent(rest, UndosOf(v1, rest));
      UndoAfterSpend(v, vin[0], lost1);
      assert UndosOf(v, vin)[1..] == UndosOf(v1, rest);
      assert AllStored(UndosOf(v, vin))[1..] == AllStored(UndosOf(v1, rest));
      assert (if SpendUndo(v, vin[0]).nHeight != 0 then lost1 + {vin[0].hash} else lost1) == lost + FullySpent(vin, UndosOf(v, vin));
    }
  }

  // ---------- one transaction ----------

  function ApplyTx(v: View, tx: Tx, height: int): View
    requires CanSpendAll(v, Inputs(tx))
  {
    Put(SpendAll(v, Inputs(tx)), tx.txid, FromTx(tx, height))
  }

  /** CCoins::operator==: pruned coins are all equal. */
  predicate SameCoins(a: CoinsValue, b: CoinsValue) {
    (AllNull(a.vout) && AllNull(b.vout)) || a == b
  }

  /** What DisconnectBlock finds as the outputs of the transaction, made comparable. */
  function Outs(v: View, tx: Tx): CoinsValue {
    var c := Get(v, tx.txid);
    c.(vout := Cleaned(WithoutUnspendable(c.vout)), nVersion := if tx.nVersion < 0 then tx.nVersion else c.nVersion)
  }

  function UndoTx(v: View, tx: Tx, undos: seq<TxInUndo>): View
    requires |undos| == |Inputs(tx)|
  {
    UndoAll(v - {tx.txid}, Inputs(tx), undos)
  }

  predicate UndoTxClean(v: View, tx: Tx, undos: seq<TxInUndo>, height: int)
    requires |undos| == |Inputs(tx)|
  {
    SameCoins(Outs(v, tx), FromTx(tx, height)) && UndoAllClean(v - {tx.txid}, Inputs(tx), undos)
  }

  lemma FromTxGood(tx: Tx, height: int)
    requires Checked(tx) && height >= 1
    ensures AllNull(FromTx(tx, height).vout) || GoodCoins(FromTx(tx, height))
    ensures Cleaned(FromTx(tx, height).vout) == FromTx(tx, height).vout
    ensures Cleaned(WithoutUnspendable(FromTx(tx, height).vout)) == FromTx(tx, height).vout
  {
    var w := WithoutUnspendable(tx.vout);
    var r := Cleaned(w);
    SpendableGood(tx.vout);
    assert forall o | o in r :: o in w;
    PrunedIsEmpty(r);
    CleanedUnique(r, r);
    hide Checked, GoodOut, Cleaned;
    assert WithoutUnspendable(r) == r;
  }

  lemma SpendableGood(vout: seq<TxOut>)
    requires forall o | o in vout :: GoodOut(o)
    ensures forall o | o in WithoutUnspendable(vout) :: (if o.IsNull() then o == NULL_OUT else GoodOut(o)) && !o.IsUnspendable()
  {
    var w := WithoutUnspendable(vout);
    forall o | o in w ensures (if o.IsNull() then o == NULL_OUT else GoodOut(o)) && !o.IsUnspendable() {
      var i :| 0 <= i < |w| && w[i] == o;
      assert vout[i] in vout;
    }
  }

  /** Nothing of the transaction's own id is left when its inputs are spent: BIP 30, "Specification". */
  predicate Fresh(v: View, tx: Tx)
    requires CanSpendAll(v, Inputs(tx))
  {
    tx.txid !in SpendAll(v, Inputs(tx))
  }

  lemma ApplyTxGood(v: View, tx: Tx, height: int)
    requires GoodView(v) && Checked(tx) && height >= 1 && CanSpendAll(v, Inputs(tx))
    ensures GoodView(ApplyTx(v, tx, height))
  {
    SpendAllGood(v, Inputs(tx));
    FromTxGood(tx, height);
  }

  /** Undoing a transaction on a view in which some coins were restored before. */
  lemma UndoTxAfterApply(v: View, tx: Tx, height: int, lost: set<TxId>)
    requires GoodView(v) && Checked(tx) && height >= 1 && CanSpendAll(v, Inputs(tx)) && Fresh(v, tx)
    ensures var undos, after := UndosOf(v, Inputs(tx)), Worn(ApplyTx(v, tx, height), lost);
            && UndoTx(after, tx, AllStored(undos)) == Worn(v, lost + FullySpent(Inputs(tx), undos))
            && (UndoTxClean(after, tx, AllStored(undos), height) <==> !(tx.txid in lost && tx.txid in ApplyTx(v, tx, height) && tx.IsCoinStake()))
  {
    var v1, after := SpendAll(v, Inputs(tx)), Worn(ApplyTx(v, tx, height), lost);
    UndoAllAfterSpendAll(v, Inputs(tx), lost);
    FromTxGood(tx, height);
    PutThenRemove(v1, tx.txid, FromTx(tx, height), lost);
    OutsMatch(v1, tx, height, lost);
    hide UndoAll, UndoAllClean, UndosOf, FullySpent, AllStored, SpendAll, Worn, FromTx, Outs, Put, SameCoins;
  }

  lemma PutThenRemove(v: View, h: TxId, c: CoinsValue, lost: set<TxId>)
    requires h !in v
    ensures Worn(Put(v, h, c), lost) - {h} == Worn(v, lost)
  {
  }

  lemma OutsMatch(v: View, tx: Tx, height: int, lost: set<TxId>)
    requires tx.txid !in v && Checked(tx) && height >= 1
    ensures var put := Put(v, tx.txid, FromTx(tx, height));
            SameCoins(Outs(Worn(put, lost), tx), FromTx(tx, height)) <==> !(tx.txid in lost && tx.txid in put && tx.IsCoinStake())
  {
    var made, put := FromTx(tx, height), Put(v, tx.txid, FromTx(tx, height));
    FromTxGood(tx, height);
    GetWorn(put, lost, tx.txid);
    PrunedIsEmpty(made.vout);
    assert WithoutUnspendable([]) == [];
    var c := Get(Worn(put, lost), tx.txid);
    assert c.vout == made.vout;
    var outs := Outs(Worn(put, lost), tx);
    hide WithoutUnspendable, Cleaned, FromTx;
    assert outs.vout == made.vout;
  }

  // ---------- a block ----------

  predicate CanConnect(v: View, txs: seq<Tx>, height: int)
    decreases |txs|
  {
    txs == [] || (CanSpendAll(v, Inputs(txs[0])) && CanConnect(ApplyTx(v, txs[0], height), txs[1..], height))
  }

  function ConnectTxs(v: View, txs: seq<Tx>, height: int): View
    requires CanConnect(v, txs, height)
    decreases |txs|
  {
    if txs == [] then v else ConnectTxs(ApplyTx(v, txs[0], height), txs[1..], height)
  }

  /** The undo data of a block, one entry a transaction; the coinbase's is empty and not stored. */
  function BlockUndo(v: View, txs: seq<Tx>, height: int): (r: seq<seq<TxInUndo>>)
    requires CanConnect(v, txs, height)
    ensures Matches(txs, r)
    decreases |txs|
  {
    if txs == [] then [] else [UndosOf(v, Inputs(txs[0]))] + BlockUndo(ApplyTx(v, txs[0], height), txs[1..], height)
  }

  predicate Matches(txs: seq<Tx>, undos: seq<seq<TxInUndo>>) {
    |txs| == |undos| && forall i | 0 <= i < |txs| :: |undos[i]| == |Inputs(txs[i])|
  }

  predicate FreshBlock(v: View, txs: seq<Tx>, height: int)
    requires CanConnect(v, txs, height)
    decreases |txs|
  {
    txs == [] || (Fresh(v, txs[0]) && FreshBlock(ApplyTx(v, txs[0], height), txs[1..], height))
  }

  /** Transactions are undone last to first. */
  function UndoTxs(v: View, txs: seq<Tx>, undos: seq<seq<TxInUndo>>): View
    requires Matches(txs, undos)
  {
    if txs == [] then v else UndoTx(UndoTxs(v, txs[1..], undos[1..]), txs[0], undos[0])
  }

  predicate UndoTxsClean(v: View, txs: seq<Tx>, undos: seq<seq<TxInUndo>>, height: int)
    requires Matches(txs, undos)
  {
    txs == [] ||
    (UndoTxsClean(v, txs[1..], undos[1..], height) && UndoTxClean(UndoTxs(v, txs[1..], undos[1..]), txs[0], undos[0], height))
  }

  function FullySpentBlock(txs: seq<Tx>, undos: seq<seq<TxInUndo>>): set<TxId>
    requires Matches(txs, undos)
  {
    if txs == [] then {} else FullySpentBlock(txs[1..], undos[1..]) + FullySpent(Inputs(txs[0]), undos[0])
  }

  lemma {:induction false} ConnectGood(v: View, txs: seq<Tx>, height: int)
    requires GoodView(v) && height >= 1 && CanConnect(v, txs, height) && forall tx | tx in txs :: Checked(tx)
    ensures GoodView(ConnectTxs(v, txs, height))
    decreases |txs|
  {
    if txs != [] {
      ApplyTxGood(v, txs[0], height);
      ConnectGood(ApplyTx(v, txs[0], height), txs[1..], height);
    }
  }

  /** No coin that one of these transactions makes as a coinstake is in `lost` by the time it is removed. */
  predicate StakesKept(v: View, txs: seq<Tx>, height: int, lost: set<TxId>)
    requires CanConnect(v, txs, height)
    decreases |txs|
  {
    txs == [] ||
    var v1 := ApplyTx(v, txs[0], height);
    var later := lost + FullySpentBlock(txs[1..], BlockUndo(v1, txs[1..], height));
    StakesKept(v1, txs[1..], height, lost) && !(txs[0].txid in later && txs[0].txid in v1 && txs[0].IsCoinStake())
  }

  /** The exact effect of disconnecting what was just connected: everything is as before, chained spends inside
      the block included, except that coins spent entirely by the block have lost their coinstake flag and the sign
      of their version; and the result is called clean unless a coinstake among them was itself made by the block. */
  lemma {:induction false} UndoAfterConnect(v: View, txs: seq<Tx>, height: int, lost: set<TxId>)
    requires GoodView(v) && height >= 1 && CanConnect(v, txs, height) && FreshBlock(v, txs, height)
    requires forall tx | tx in txs :: Checked(tx)
    ensures var undos, after := BlockUndo(v, txs, height), Worn(ConnectTxs(v, txs, height), lost);
            && UndoTxs(after, txs, BlockStored(undos)) == Worn(v, lost + FullySpentBlock(txs, undos))
            && (UndoTxsClean(after, txs, BlockStored(undos), height) <==> StakesKept(v, txs, height, lost))
    decreases |txs|
  {
    hide AllStored, ApplyTx, UndoTx, UndoTxClean, Worn, UndosOf, FullySpent, Fresh, GoodView, Checked, Inputs;
    assert lost + {} == lost;
    if txs != [] {
      var v1, rest := ApplyTx(v, txs[0], height), txs[1..];
      ApplyTxGood(v, txs[0], height);
      UndoAfterConnect(v1, rest, height, lost);
      var undos := BlockUndo(v, txs, height);
      assert undos[1..] == BlockUndo(v1, rest, height);
      assert BlockStored(undos)[1..] == BlockStored(undos[1..]);
      var later := lost + FullySpentBlock(rest, undos[1..]);
      UndoTxAfterApply(v, txs[0], height, later);
      assert later + FullySpent(Inputs(txs[0]), undos[0]) == lost + FullySpentBlock(txs, undos);
    }
  }

  // ---------- when disconnecting is an exact inverse ----------

  /** Nothing is lost when a coin is restored from this record by disconnecting a block at `height`: it is no
      coinstake's, and its version is not negative unless that coin was made by the same block. */
  predicate Keeps(u: TxInUndo, height: int) {
    u.nHeight != 0 ==> !u.fCoinStake && (u.nVersion >= 0 || u.nHeight == height)
  }

  predicate LosslessTx(undos: seq<TxInUndo>, height: int) {
    forall u | u in undos :: Keeps(u, height)
  }

  predicate Lossless(undos: seq<seq<TxInUndo>>, height: int) {
    forall i | 0 <= i < |undos| :: LosslessTx(undos[i], height)
  }

  predicate CoinKeeps(c: CoinsValue, height: int) {
    !c.fCoinStake && (c.nVersion >= 0 || c.nHeight == height)
  }

  predicate AllKeep(v: View, hs: set<TxId>, height: int) {
    forall h | h in v && h in hs :: CoinKeeps(v[h], height)
  }

  lemma {:induction false} RecordsAreCoins(v: View, vin: seq<OutPoint>, height: int)
    requires GoodView(v) && CanSpendAll(v, vin)
    ensures forall h | h in SpendAll(v, vin) :: h in v && SpendAll(v, vin)[h] == v[h].(vout := SpendAll(v, vin)[h].vout)
    ensures FullySpent(vin, UndosOf(v, vin)) == v.Keys - SpendAll(v, vin).Keys
    ensures LosslessTx(UndosOf(v, vin), height) <==> AllKeep(v, FullySpent(vin, UndosOf(v, vin)), height)
    decreases |vin|
  {
    hide Spend, SpendUndo, CanSpend, GoodView, CoinKeeps, Keeps;
    if vin != [] {
      var v1, u, rest := Spend(v, vin[0]), SpendUndo(v, vin[0]), UndosOf(Spend(v, vin[0]), vin[1..]);
      SpendKeepsGood(v, vin[0]);
      RecordsAreCoins(v1, vin[1..], height);
      SpendKeeps(v, vin[0], height);
      assert UndosOf(v, vin)[1..] == rest;
      assert UndosOf(v, vin) == [u] + rest;
      assert LosslessTx([u] + rest, height) <==> Keeps(u, height) && LosslessTx(rest, height);
      var later := FullySpent(vin[1..], rest);
      assert AllKeep(v1, later, height) <==> AllKeep(v, later, height);
    }
  }

  lemma SpendKeeps(v: View, out: OutPoint, height: int)
    requires GoodView(v) && CanSpend(v, out)
    ensures var v1, u := Spend(v, out), SpendUndo(v, out);
            && (forall h | h in v1 :: h in v && v1[h] == v[h].(vout := v1[h].vout) && CoinKeeps(v1[h], height) == CoinKeeps(v[h], height))
            && v.Keys - v1.Keys == (if u.nHeight != 0 then {out.hash} else {})
            && (u.nHeight != 0 ==> Keeps(u, height) == CoinKeeps(v[out.hash], height))
            && (u.nHeight == 0 ==> Keeps(u, height))
  {
    var s := v[out.hash].vout[out.n := NULL_OUT];
    PrunedIsEmpty(Cleaned(s));
    assert Cleaned(Cleaned(s)) == Cleaned(s);
  }

  /** Coins made before height. */
  predicate Below(v: View, height: int) {
    forall h | h in v :: v[h].nHeight < height
  }

  lemma WornIsSame(v: View, lost: set<TxId>, height: int)
    requires Below(v, height)
    ensures Worn(v, lost) == v <==> AllKeep(v, lost, height)
  {
    if Worn(v, lost) == v {
      forall h | h in v && h in lost ensures CoinKeeps(v[h], height) {
        assert Worn(v, lost)[h] == v[h];
      }
    }
  }

  /** DisconnectBlock, with the undo data read back from disk, undoes ConnectBlock exactly and reports so, if and only
      if no undo record of a coin's last output carries the coinstake flag, nor, for a coin of an earlier block, a
      negative version. */
  lemma {:induction false} DisconnectInvertsConnect(v: View, txs: seq<Tx>, height: int)
    requires GoodView(v) && height >= 1 && Below(v, height) && CanConnect(v, txs, height) && FreshBlock(v, txs, height)
    requires forall tx | tx in txs :: Checked(tx)
    ensures var undos, after := BlockUndo(v, txs, height), ConnectTxs(v, txs, height);
            UndoTxs(after, txs, BlockStored(undos)) == v && UndoTxsClean(after, txs, BlockStored(undos), height) <==> Lossless(undos, height)
    decreases |txs|
  {
    var undos := BlockUndo(v, txs, height);
    NothingLost(ConnectTxs(v, txs, height));
    UndoAfterConnect(v, txs, height, {});
    LosslessIff(v, txs, height);
    WornIsSame(v, FullySpentBlock(txs, undos), height);
    assert {} + FullySpentBlock(txs, undos) == FullySpentBlock(txs, undos);
  }

  lemma {:induction false} LosslessIff(v: View, txs: seq<Tx>, height: int)
    requires GoodView(v) && height >= 1 && CanConnect(v, txs, height) && FreshBlock(v, txs, height)
    requires forall tx | tx in txs :: Checked(tx)
    ensures var undos := BlockUndo(v, txs, height);
            AllKeep(v, FullySpentBlock(txs, undos), height) && StakesKept(v, txs, height, {}) <==> Lossless(undos, height)
    decreases |txs|
  {
    hide ApplyTx, Worn, UndosOf, FullySpent, Fresh, GoodView, Checked, Inputs, AllKeep, LosslessTx;
    if txs == [] {
      NothingKept(v, height);
    } else {
      var v1, rest, undos := ApplyTx(v, txs[0], height), txs[1..], BlockUndo(v, txs, height);
      ApplyTxGood(v, txs[0], height);
      LosslessIff(v1, rest, height);
      assert undos[1..] == BlockUndo(v1, rest, height);
      assert Lossless(undos, height) <==> LosslessTx(undos[0], height) && Lossless(undos[1..], height) by {
        assert forall i | 0 < i < |undos| :: undos[i] == undos[1..][i - 1];
      }
      RecordsAreCoins(v, Inputs(txs[0]), height);
      var later := FullySpentBlock(rest, undos[1..]);
      assert {} + later == later;
      StakeStep(v, txs[0], height, later);
    }
  }

  lemma NothingLost(v: View)
    ensures Worn(v, {}) == v
  {
  }

  lemma NothingKept(v: View, height: int)
    ensures AllKeep(v, {}, height)
  {
  }

  /** The two halves of a block agree on which coins have lost something. */
  lemma StakeStep(v: View, tx: Tx, height: int, later: set<TxId>)
    requires GoodView(v) && height >= 1 && Checked(tx) && CanSpendAll(v, Inputs(tx)) && Fresh(v, tx)
    ensures var v1, now := ApplyTx(v, tx, height), FullySpent(Inputs(tx), UndosOf(v, Inputs(tx)));
            AllKeep(v, later + now, height) && !(tx.txid in later && tx.txid in v1 && tx.IsCoinStake())
            <==> AllKeep(v1, later, height) && AllKeep(v, now, height)
  {
    RecordsAreCoins(v, Inputs(tx), height);
    var spent, v1 := SpendAll(v, Inputs(tx)), ApplyTx(v, tx, height);
    PutAt(spent, tx.txid, FromTx(tx, height));
    hide ApplyTx, SpendAll, CanSpendAll, UndosOf, FullySpent, GoodView, Put, LosslessTx, Inputs;
    StakeSplit(v, spent, v1, tx.txid, tx.IsCoinStake(), height, later);
  }

  lemma PutAt(v: View, h: TxId, c: CoinsValue)
    ensures forall x | x != h :: (x in Put(v, h, c) <==> x in v) && (x in v ==> Put(v, h, c)[x] == v[x])
    ensures h in Put(v, h, c) ==> Put(v, h, c)[h] == c.(vout := Put(v, h, c)[h].vout)
  {
  }

  lemma StakeSplit(v: View, spent: View, v1: View, h0: TxId, stake: bool, height: int, later: set<TxId>)
    requires forall h | h in spent :: h in v && spent[h] == v[h].(vout := spent[h].vout)
    requires h0 !in spent && (h0 in v1 ==> v1[h0].fCoinStake == stake && v1[h0].nHeight == height)
    requires forall h | h != h0 :: (h in v1 <==> h in spent) && (h in spent ==> v1[h] == spent[h])
    ensures var now := v.Keys - spent.Keys;
            AllKeep(v, later + now, height) && !(h0 in later && h0 in v1 && stake) <==> AllKeep(v1, later, height) && AllKeep(v, now, height)
  {
    var now := v.Keys - spent.Keys;
    if AllKeep(v1, later, height) && AllKeep(v, now, height) {
      forall h | h in v && h in later + now ensures CoinKeeps(v[h], height) {
        assert h in spent ==> h in v1 && CoinKeeps(v1[h], height) == CoinKeeps(v[h], height);
      }
    }
  }

  // ---------- the other way round ----------

  /** A record of an output that a block could have made, with metadata only if it was the last one. */
  predicate GoodRecord(undo: TxInUndo) {
    && GoodOut(undo.txout) && undo.nHeight >= 0
    && (undo.nHeight == 0 ==> undo == TxInUndo(undo.txout, false, false, 0, 0))
  }

  /** If DisconnectBlock does not complain about restoring an output, spending it again gives the view and the record back. */
  lemma SpendAfterUndo(v: View, out: OutPoint, undo: TxInUndo)
    requires GoodView(v) && GoodRecord(undo) && UndoClean(v, out, undo)
    ensures var u := UndoSpend(v, out, undo);
            GoodView(u) && CanSpend(u, out) && Spend(u, out) == v && SpendUndo(u, out) == undo.(fCoinStake := false)
  {
    var c := Get(v, out.hash);
    CoinBack(c, out.n, undo);
    var r := UndoCoins(c, out.n, undo);
    hide UndoCoins, SpentCoins, GoodRecord, Cleaned, IsAvailable;
    assert UndoSpend(v, out, undo) == v[out.hash := r];
    assert GoodView(v[out.hash := r]);
    BackInView(v, out, r, undo);
  }

  lemma BackInView(v: View, out: OutPoint, r: CoinsValue, undo: TxInUndo)
    requires GoodView(v) && GoodCoins(r) && IsAvailable(r.vout, out.n)
    requires var s := SpentCoins(r, out.n);
             && Cleaned(s.vout) == s.vout && (AllNull(s.vout) <==> s.vout == [])
             && (if undo.nHeight != 0 then out.hash !in v && s.vout == [] else out.hash in v && s == v[out.hash] && s.vout != [])
    requires r.vout[out.n] == undo.txout && (undo.nHeight != 0 ==> r == CoinsValue(undo.fCoinBase, false, r.vout, undo.nHeight, undo.nVersion))
    requires undo.nHeight == 0 ==> undo == TxInUndo(undo.txout, false, false, 0, 0)
    ensures var u := v[out.hash := r];
            CanSpend(u, out) && Spend(u, out) == v && SpendUndo(u, out) == undo.(fCoinStake := false)
  {
    hide SpentCoins, Cleaned, IsAvailable, GoodCoins;
    var u := v[out.hash := r];
    assert Get(u, out.hash) == r;
    if undo.nHeight != 0 {
      assert u - {out.hash} == v;
    } else {
      assert u[out.hash := v[out.hash]] == v;
    }
  }

  /** Coins with an output restored, and with that output spent again. */
  lemma CoinBack(c: CoinsValue, n: nat, undo: TxInUndo)
    requires (c == NO_COINS || GoodCoins(c)) && GoodRecord(undo)
    requires (undo.nHeight != 0 <==> AllNull(c.vout)) && !IsAvailable(if undo.nHeight != 0 then [] else c.vout, n)
    ensures var r := UndoCoins(c, n, undo);
            && GoodCoins(r) && Cleaned(r.vout) == r.vout && !AllNull(r.vout) && IsAvailable(r.vout, n) && r.vout[n] == undo.txout
            && (undo.nHeight != 0 <==> c == NO_COINS)
            && (undo.nHeight != 0 ==> r == CoinsValue(undo.fCoinBase, false, r.vout, undo.nHeight, undo.nVersion))
            && var s := SpentCoins(r, n);
               && Cleaned(s.vout) == s.vout && (AllNull(s.vout) <==> s.vout == [])
               && (if undo.nHeight != 0 then s.vout == [] else s == c && s.vout != [])
  {
    var base := if undo.nHeight != 0 then [] else c.vout;
    RestoredIs(base, n, undo.txout);
    PrunedIsEmpty(c.vout);
    CleanedUnique(c.vout, c.vout);
    var r := Restored(base, n, undo.txout);
    assert r[n] in r;
    PrunedIsEmpty(base);
    hide Restored, Cleaned;
  }

  lemma RestoredIs(vout: seq<TxOut>, n: nat, o: TxOut)
    requires IsClean(vout) && !IsAvailable(vout, n) && GoodOut(o)
    requires forall x | x in vout :: if x.IsNull() then x == NULL_OUT else GoodOut(x)
    ensures var r := Restored(vout, n, o);
            && n < |r| && r[n] == o && Cleaned(r) == r && r != [] && IsClean(r) && Cleaned(r[n := NULL_OUT]) == vout
            && Cleaned(vout) == vout
            && forall x | x in r :: if x.IsNull() then x == NULL_OUT else GoodOut(x)
  {
    var r := Restored(vout, n, o);
    var s := r[n := NULL_OUT];
    forall i | 0 <= i < |vout| ensures s[i] == vout[i] {
      assert vout[i] in vout;
    }
    assert vout <= s;
    CleanedUnique(s, vout);
    CleanedUnique(r, r);
    CleanedUnique(vout, vout);
    forall x | x in r ensures if x.IsNull() then x == NULL_OUT else GoodOut(x) {
      var i :| 0 <= i < |r| && r[i] == x;
      assert i < |vout| ==> vout[i] in vout;
    }
  }

  /** What spending again records: the flags of coinstakes are gone. */
  function Flagless(undos: seq<TxInUndo>): (r: seq<TxInUndo>)
    ensures |r| == |undos| && forall i | 0 <= i < |r| :: r[i] == undos[i].(fCoinStake := false)
  {
    seq(|undos|, i requires 0 <= i < |undos| => undos[i].(fCoinStake := false))
  }

  lemma {:induction false} SpendAllAfterUndoAll(v: View, vin: seq<OutPoint>, undos: seq<TxInUndo>)
    requires GoodView(v) && |vin| == |undos| && (forall u | u in undos :: GoodRecord(u)) && UndoAllClean(v, vin, undos)
    ensures var u := UndoAll(v, vin, undos);
            GoodView(u) && CanSpendAll(u, vin) && SpendAll(u, vin) == v && UndosOf(u, vin) == Flagless(undos)
  {
    hide Spend, SpendUndo, UndoSpend, UndoClean, CanSpend, GoodView, GoodRecord;
    if vin != [] {
      SpendAllAfterUndoAll(v, vin[1..], undos[1..]);
      SpendAfterUndo(UndoAll(v, vin[1..], undos[1..]), vin[0], undos[0]);
      assert Flagless(undos) == [undos[0].(fCoinStake := false)] + Flagless(undos[1..]);
    }
  }

  /** The coins of a transaction need none of the corrections that DisconnectBlock makes before it compares them: nothing
      unspendable is left in them, and a negative version is the transaction's. */
  predicate Uncorrected(v: View, tx: Tx) {
    Get(v, tx.txid) == Outs(v, tx)
  }

  lemma ApplyAfterUndo(v: View, tx: Tx, undos: seq<TxInUndo>, height: int)
    requires GoodView(v) && Checked(tx) && height >= 1 && Uncorrected(v, tx)
    requires |undos| == |Inputs(tx)| && (forall u | u in undos :: GoodRecord(u)) && UndoTxClean(v, tx, undos, height)
    ensures var u := UndoTx(v, tx, undos);
            && GoodView(u) && CanSpendAll(u, Inputs(tx)) && Fresh(u, tx)
            && ApplyTx(u, tx, height) == v && UndosOf(u, Inputs(tx)) == Flagless(undos)
  {
    assert GoodView(v - {tx.txid});
    SpendAllAfterUndoAll(v - {tx.txid}, Inputs(tx), undos);
    FromTxGood(tx, height);
    hide UndoAll, UndoAllClean, UndosOf, SpendAll, CanSpendAll, FromTx, Outs, Flagless, Inputs, Checked;
    PutBackSame(v, tx.txid, FromTx(tx, height));
  }

  lemma PutBackSame(v: View, h: TxId, c: CoinsValue)
    requires GoodView(v) && SameCoins(Get(v, h), c) && Cleaned(c.vout) == c.vout
    ensures Put(v - {h}, h, c) == v
  {
    if h in v {
      PrunedIsEmpty(v[h].vout);
      CleanedUnique(v[h].vout, v[h].vout);
      assert (v - {h})[h := v[h]] == v;
    } else {
      assert v - {h} == v && v - {h} - {h} == v;
    }
  }

  predicate AllUncorrected(v: View, txs: seq<Tx>, undos: seq<seq<TxInUndo>>)
    requires Matches(txs, undos)
  {
    txs == [] || (AllUncorrected(v, txs[1..], undos[1..]) && Uncorrected(UndoTxs(v, txs[1..], undos[1..]), txs[0]))
  }

  /** ConnectBlock undoes DisconnectBlock: if DisconnectBlock does not complain, whatever the records are, the block
      connects to the view that it leaves, and gives the view before and the same records back. */
  lemma {:induction false} ConnectInvertsDisconnect(v: View, txs: seq<Tx>, undos: seq<seq<TxInUndo>>, height: int)
    requires GoodView(v) && height >= 1 && Matches(txs, undos) && (forall tx | tx in txs :: Checked(tx))
    requires forall i | 0 <= i < |undos| :: forall u | u in undos[i] :: GoodRecord(u)
    requires UndoTxsClean(v, txs, undos, height) && AllUncorrected(v, txs, undos)
    ensures var u := UndoTxs(v, txs, undos);
            && GoodView(u) && CanConnect(u, txs, height) && FreshBlock(u, txs, height) && ConnectTxs(u, txs, height) == v
            && |BlockUndo(u, txs, height)| == |undos|
            && forall i | 0 <= i < |undos| :: BlockUndo(u, txs, height)[i] == Flagless(undos[i])
  {
    hide UndoTx, UndoTxClean, ApplyTx, UndosOf, CanSpendAll, GoodView, Checked, GoodRecord, Uncorrected, Fresh, Flagless, Inputs;
    if txs != [] {
      ConnectInvertsDisconnect(v, txs[1..], undos[1..], height);
      var w := UndoTxs(v, txs[1..], undos[1..]);
      ApplyAfterUndo(w, txs[0], undos[0], height);
      var u := UndoTxs(v, txs, undos);
      assert BlockUndo(u, txs, height) == [UndosOf(u, Inputs(txs[0]))] + BlockUndo(w, txs[1..], height);
    }
  }

  // ---------- when it is not ----------

  const EMPTY_OUT := TxOut(0, [], NULL_OUT.nRounds)
  const SOME_OUT := TxOut(0, [1], NULL_OUT.nRounds)

  /** A block: a coinbase that pays nothing, and a transaction that spends output 0 of transaction 7. */
  const SPENDS_LAST := [Tx(8, 1, [OutPoint(0, 0xffffffff)], [EMPTY_OUT]), Tx(9, 1, [OutPoint(7, 0)], [SOME_OUT])]

  predicate OneLeft(c: CoinsValue) {
    1 <= c.nHeight < 3 && (c.vout == [EMPTY_OUT] || c.vout == [SOME_OUT])
  }

  /** A coinbase's coins, and those of transaction 7. */
  function TwoCoins(c: CoinsValue): View {
    map[2 := CoinsValue(true, false, [EMPTY_OUT], 2, 1), 7 := c]
  }

  /** Coins with one output: putting them in, spending them. */
  lemma OneOutput(v: View, h: TxId, c: CoinsValue)
    requires |c.vout| == 1 && !c.vout[0].IsNull()
    ensures Put(v, h, c) == v[h := c]
    ensures CanSpend(v[h := c], OutPoint(h, 0)) && Spend(v[h := c], OutPoint(h, 0)) == v - {h}
    ensures SpendUndo(v[h := c], OutPoint(h, 0)) == TxInUndo(c.vout[0], c.fCoinBase, c.fCoinStake, c.nHeight, c.nVersion)
  {
    CleanedUnique(c.vout, c.vout);
    assert c.vout[0 := NULL_OUT] == [NULL_OUT];
    CleanedUnique([NULL_OUT], []);
  }

  /** A block of a coinbase and a transaction with one input. */
  lemma TwoTxs(v: View, cb: Tx, tx: Tx, height: int, v1: View)
    requires cb.IsCoinBase() && cb.txid !in v && !tx.IsCoinBase() && |tx.vin| == 1
    requires v1 == Put(v, cb.txid, FromTx(cb, height)) && CanSpend(v1, tx.vin[0]) && tx.txid !in Spend(v1, tx.vin[0])
    ensures CanConnect(v, [cb, tx], height) && FreshBlock(v, [cb, tx], height)
    ensures ConnectTxs(v, [cb, tx], height) == Put(Spend(v1, tx.vin[0]), tx.txid, FromTx(tx, height))
    ensures BlockUndo(v, [cb, tx], height) == [[], [SpendUndo(v1, tx.vin[0])]]
  {
    hide Put, FromTx, CanSpend, Spend, SpendUndo;
    assert [cb, tx][1..] == [tx] && [tx][1..] == [] && tx.vin[1..] == [];
    assert CanSpendAll(v1, tx.vin) && SpendAll(v1, tx.vin) == Spend(v1, tx.vin[0]) && UndosOf(v1, tx.vin) == [SpendUndo(v1, tx.vin[0])];
    var v2 := ApplyTx(v1, tx, height);
    assert CanConnect(v2, [], height) && ConnectTxs(v2, [], height) == v2 && BlockUndo(v2, [], height) == [];
    assert FreshBlock(v2, [], height) && FreshBlock(v1, [tx], height);
    assert CanConnect(v1, [tx], height) && ConnectTxs(v1, [tx], height) == v2 && BlockUndo(v1, [tx], height) == [UndosOf(v1, tx.vin)];
  }

  lemma TwoGood(c: CoinsValue)
    requires OneLeft(c)
    ensures GoodView(TwoCoins(c)) && Below(TwoCoins(c), 3)
  {
  }

  /** The coins of a transaction of which only the first output is spendable. */
  lemma FirstLeft(tx: Tx, height: int)
    requires |tx.vout| == 1 || (|tx.vout| == 2 && tx.vout[1].IsUnspendable())
    requires !tx.vout[0].IsUnspendable() && !tx.vout[0].IsNull()
    ensures FromTx(tx, height) == CoinsValue(tx.IsCoinBase(), tx.IsCoinStake(), [tx.vout[0]], height, tx.nVersion)
  {
    CleanedUnique(WithoutUnspendable(tx.vout), [tx.vout[0]]);
  }

  lemma SpendsLastChecked()
    ensures forall tx | tx in SPENDS_LAST :: Checked(tx)
    ensures SPENDS_LAST[0].IsCoinBase() && !SPENDS_LAST[1].IsCoinBase() && !SPENDS_LAST[1].IsCoinStake()
  {
    assert Checked(SPENDS_LAST[0]) && Checked(SPENDS_LAST[1]);
  }

  lemma SpendsLast(c: CoinsValue)
    requires OneLeft(c)
    ensures var v := TwoCoins(c);
            && CanConnect(v, SPENDS_LAST, 3) && FreshBlock(v, SPENDS_LAST, 3)
            && BlockUndo(v, SPENDS_LAST, 3) == [[], [TxInUndo(c.vout[0], c.fCoinBase, c.fCoinStake, c.nHeight, c.nVersion)]]
  {
    var v, cb, tx := TwoCoins(c), SPENDS_LAST[0], SPENDS_LAST[1];
    var made := CoinsValue(true, false, [EMPTY_OUT], 3, 1);
    FirstLeft(cb, 3);
    OneOutput(v, 8, made);
    hide Put, CanSpend, Spend, SpendUndo, CanConnect, FreshBlock, BlockUndo, ConnectTxs, FromTx;
    var base := map[2 := CoinsValue(true, false, [EMPTY_OUT], 2, 1), 8 := made];
    OneOutput(base, 7, c);
    assert base[7 := c] == v[8 := made];
    TwoTxs(v, cb, tx, 3, v[8 := made]);
  }

  /** The law fails for coinstakes: a block at height 3 spends the output that is left of one, is disconnected, and the
      flag is gone. */
  lemma CoinStakeFlagIsLost()
    ensures var v := TwoCoins(CoinsValue(false, true, [EMPTY_OUT], 2, 1));
            && GoodView(v) && CanConnect(v, SPENDS_LAST, 3)
            && UndoTxs(ConnectTxs(v, SPENDS_LAST, 3), SPENDS_LAST, BlockStored(BlockUndo(v, SPENDS_LAST, 3)))
               == TwoCoins(CoinsValue(false, false, [EMPTY_OUT], 2, 1))
  {
    hide CanConnect, ConnectTxs, BlockUndo, UndoTxs, GoodView, TwoCoins, SPENDS_LAST;
    LastIsWorn(CoinsValue(false, true, [EMPTY_OUT], 2, 1));
  }

  /** And for negative versions: the record on disk has no sign. */
  lemma VersionSignIsLost()
    ensures var v := TwoCoins(CoinsValue(false, false, [SOME_OUT], 2, -1));
            && GoodView(v) && CanConnect(v, SPENDS_LAST, 3)
            && UndoTxs(ConnectTxs(v, SPENDS_LAST, 3), SPENDS_LAST, BlockStored(BlockUndo(v, SPENDS_LAST, 3)))
               == TwoCoins(CoinsValue(false, false, [SOME_OUT], 2, 127))
  {
    hide CanConnect, ConnectTxs, BlockUndo, UndoTxs, GoodView, TwoCoins, SPENDS_LAST;
    LastIsWorn(CoinsValue(false, false, [SOME_OUT], 2, -1));
  }

  lemma {:induction false} NoStakes(v: View, txs: seq<Tx>, height: int, lost: set<TxId>)
    requires CanConnect(v, txs, height) && forall tx | tx in txs :: !tx.IsCoinStake()
    ensures StakesKept(v, txs, height, lost)
    decreases |txs|
  {
    if txs != [] {
      NoStakes(ApplyTx(v, txs[0], height), txs[1..], height, lost);
    }
  }

  /** What comes back of the coin is worn, and DisconnectBlock does not notice. */
  lemma LastIsWorn(c: CoinsValue)
    requires OneLeft(c)
    ensures var v := TwoCoins(c);
            && GoodView(v) && CanConnect(v, SPENDS_LAST, 3)
            && UndoTxs(ConnectTxs(v, SPENDS_LAST, 3), SPENDS_LAST, BlockStored(BlockUndo(v, SPENDS_LAST, 3))) == TwoCoins(WornCoins(c))
            && UndoTxsClean(ConnectTxs(v, SPENDS_LAST, 3), SPENDS_LAST, BlockStored(BlockUndo(v, SPENDS_LAST, 3)), 3)
  {
    hide CanConnect, ConnectTxs, FreshBlock, BlockUndo, UndoTxs, UndoTxsClean, FullySpentBlock, StakesKept, GoodView, Checked,
      WornCoins, Worn, TwoCoins, SPENDS_LAST, BlockStored, Below, OneLeft, Matches;
    var v := TwoCoins(c);
    SpendsLast(c);
    TwoGood(c);
    SpendsLastChecked();
    OneSpent(BlockUndo(v, SPENDS_LAST, 3), c);
    OneWorn(c);
    NothingLost(ConnectTxs(v, SPENDS_LAST, 3));
    UndoAfterConnect(v, SPENDS_LAST, 3, {});
    NoStakes(v, SPENDS_LAST, 3, {});
    assert {} + {7} == {7};
  }

  lemma OneWorn(c: CoinsValue)
    ensures Worn(TwoCoins(c), {7}) == TwoCoins(WornCoins(c))
  {
  }

  lemma OneSpent(undos: seq<seq<TxInUndo>>, c: CoinsValue)
    requires OneLeft(c) && undos == [[], [TxInUndo(c.vout[0], c.fCoinBase, c.fCoinStake, c.nHeight, c.nVersion)]]
    ensures Matches(SPENDS_LAST, undos) && FullySpentBlock(SPENDS_LAST, undos) == {7}
    ensures forall tx | tx in SPENDS_LAST :: !tx.IsCoinStake()
  {
    assert undos[1..] == [undos[1]] && undos[1..][1..] == [];
    assert SPENDS_LAST[1..][1..] == [] && Inputs(SPENDS_LAST[1]) == [OutPoint(7, 0)];
    assert FullySpent(Inputs(SPENDS_LAST[1]), undos[1]) == {7};
    assert FullySpentBlock(SPENDS_LAST[1..], undos[1..]) == {7};
  }
}
