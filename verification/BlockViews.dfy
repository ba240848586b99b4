/**
 Connecting and disconnecting a block through a cache of coins (src/main.cpp:1986-2000, 2111-2196, 2311-2362,
 2539-2660; src/coins.cpp:220-244): what module CoinState does on the flat map, done on a cache over any stack of
 views and flushed at the end.
 */
module BlockViews {
  import opened Options
  import opened Coins
  import opened BlockCoins
  import opened Conservation
  import opened CoinChain
  import opened CoinsCache

  datatype Totals = Totals(vtxundo: seq<seq<TxInUndo>>, nValueIn: int, nValueOut: int, nFees: int)

  /** HaveInputs: every output spent is there. */
  method HasInputs(view: CoinsView, tx: Tx) returns (have: bool)
    requires view.Wired() && view.Valid() && view.base != null
    modifies view.Repr
    ensures view.Valid() && view.Flat() == old(view.Flat()) && view.BestBlock() == old(view.BestBlock())
    ensures view.base.Flat() == old(view.base.Flat()) && view.base.BestBlock() == old(view.base.BestBlock()) && view.hashBlock == old(view.hashBlock)
    ensures have <==> HaveInputs(view.Flat(), tx)
  {
    hide IsAvailable, CanSpend, Agrees;
    if tx.IsCoinBase() {
      return true;
    }
    for i := 0 to |tx.vin|
      invariant view.Valid() && view.Flat() == old(view.Flat()) && view.BestBlock() == old(view.BestBlock())
      invariant view.base.Flat() == old(view.base.Flat()) && view.base.BestBlock() == old(view.base.BestBlock()) && view.hashBlock == old(view.hashBlock)
      invariant forall k | 0 <= k < i :: CanSpend(view.Flat(), tx.vin[k])
    {
      var found, coins := view.GetCoins(tx.vin[i].hash);
      OneInput(view.Flat(), tx.vin[i], found, coins);
      if !found || !IsAvailable(coins.vout, tx.vin[i].n) {
        assert tx.vin[i] in Inputs(tx);
        return false;
      }
    }
    return true;
  }

  lemma OneInput(flat: View, out: OutPoint, found: bool, coins: CoinsValue)
    requires if found then Agrees(coins, flat, out.hash) else out.hash !in flat
    ensures CanSpend(flat, out) <==> found && IsAvailable(coins.vout, out.n)
    ensures CanSpend(flat, out) ==> Get(flat, out.hash) == coins
  {
  }

  /** GetValueIn: the value of the inputs. */
  method GetValueIn(view: CoinsView, tx: Tx) returns (nResult: int)
    requires view.Wired() && view.Valid() && view.base != null && HaveInputs(view.Flat(), tx)
    modifies view.Repr
    ensures view.Valid() && view.Flat() == old(view.Flat()) && view.BestBlock() == old(view.BestBlock())
    ensures view.base.Flat() == old(view.base.Flat()) && view.base.BestBlock() == old(view.base.BestBlock()) && view.hashBlock == old(view.hashBlock)
    ensures nResult == ValueIn(view.Flat(), Inputs(tx))
  {
    hide IsAvailable, CanSpend, Agrees;
    nResult := 0;
    if tx.IsCoinBase() {
      return;
    }
    ghost var flat := view.Flat();
    for i := 0 to |tx.vin|
      invariant view.Valid() && view.Flat() == flat && view.BestBlock() == old(view.BestBlock())
      invariant view.base.Flat() == old(view.base.Flat()) && view.base.BestBlock() == old(view.base.BestBlock()) && view.hashBlock == old(view.hashBlock)
      invariant nResult + ValueIn(flat, tx.vin[i..]) == ValueIn(flat, tx.vin)
    {
      assert tx.vin[i] in Inputs(tx);
      assert tx.vin[i..][0] == tx.vin[i] && tx.vin[i..][1..] == tx.vin[i + 1..];
      var found, coins := view.GetCoins(tx.vin[i].hash);
      OneInput(flat, tx.vin[i], found, coins);
      AvailableIs(coins.vout, tx.vin[i].n);
      nResult := nResult + coins.vout[tx.vin[i].n].nValue;
    }
  }

  lemma AvailableIs(vout: seq<TxOut>, n: nat)
    ensures IsAvailable(vout, n) <==> n < |vout| && !vout[n].IsNull()
  {
  }

  /** CCoins::Spend on the coins of a modifier. */
  function SpentIf(c: CoinsValue, n: nat): CoinsValue {
    if n < |c.vout| then SpentCoins(c, n) else c
  }

  lemma SpendThrough(flat: View, out: OutPoint, before: CoinsValue)
    requires CanSpend(flat, out) && Agrees(before, flat, out.hash)
    ensures before == Get(flat, out.hash) && out.n < |before.vout|
    ensures Put(flat, out.hash, SpentIf(before, out.n)) == Spend(flat, out)
  {
  }

  /** Spend one output, and what is recorded of it. */
  method SpendOne(view: CoinsView, out: OutPoint) returns (undo: TxInUndo)
    requires view.Wired() && view.Valid() && view.base != null && CanSpend(view.Flat(), out)
    modifies view.Repr
    ensures view.Valid() && view.Flat() == Spend(old(view.Flat()), out) && undo == SpendUndo(old(view.Flat()), out)
    ensures view.base.Flat() == old(view.base.Flat()) && view.base.BestBlock() == old(view.base.BestBlock())
    ensures view.BestBlock() == old(view.BestBlock()) && view.hashBlock == old(view.hashBlock)
  {
    hide CanSpend, Agrees, Spend, SpendUndo, Put, SpentCoins, SpentIf;
    ghost var flat := view.Flat();
    var c := view.ModifyCoins(out.hash, c => SpentIf(c, out.n));
    SpendThrough(flat, out, c);
    undo := TakenOut(c, out.n);
    TakenIs(flat, out, c);
  }

  /** UpdateCoins on a view. */
  method UpdateCoins(view: CoinsView, tx: Tx, height: int) returns (txundo: seq<TxInUndo>)
    requires view.Wired() && view.Valid() && view.base != null && CanSpendAll(view.Flat(), Inputs(tx))
    modifies view.Repr
    ensures view.Valid() && view.Flat() == ApplyTx(old(view.Flat()), tx, height)
    ensures txundo == UndosOf(old(view.Flat()), Inputs(tx))
    ensures view.base.Flat() == old(view.base.Flat()) && view.base.BestBlock() == old(view.base.BestBlock()) && view.BestBlock() == old(view.BestBlock()) && view.hashBlock == old(view.hashBlock)
  {
    hide CanSpend, Spend, SpendUndo, Put, FromTx, Agrees;
    ghost var flat := view.Flat();
    txundo := [];
    if !tx.IsCoinBase() {
      for i := 0 to |tx.vin|
        invariant view.Valid() && CanSpendAll(view.Flat(), tx.vin[i..])
        invariant SpendAll(flat, tx.vin) == SpendAll(view.Flat(), tx.vin[i..])
        invariant UndosOf(flat, tx.vin) == txundo + UndosOf(view.Flat(), tx.vin[i..])
        invariant view.base.Flat() == old(view.base.Flat()) && view.base.BestBlock() == old(view.base.BestBlock()) && view.BestBlock() == old(view.BestBlock()) && view.hashBlock == old(view.hashBlock)
      {
        assert tx.vin[i..][0] == tx.vin[i] && tx.vin[i..][1..] == tx.vin[i + 1..];
        var undo := SpendOne(view, tx.vin[i]);
        txundo := txundo + [undo];
      }
    }
    var was := view.ModifyCoins(tx.txid, _ => FromTx(tx, height));
  }

  /** The undo record of spending output n. */
  function TakenOut(c: CoinsValue, n: nat): TxInUndo
    requires n < |c.vout|
  {
    if Cleaned(c.vout[n := NULL_OUT]) == [] then TxInUndo(c.vout[n], c.fCoinBase, c.fCoinStake, c.nHeight, c.nVersion)
    else TxInUndo(c.vout[n], false, false, 0, 0)
  }

  lemma TakenIs(flat: View, out: OutPoint, c: CoinsValue)
    requires CanSpend(flat, out) && c == Get(flat, out.hash) && out.n < |c.vout|
    ensures TakenOut(c, out.n) == SpendUndo(flat, out)
  {
  }

  function Fee(v: View, tx: Tx): int
    requires HaveInputs(v, tx)
  {
    if tx.IsCoinBase() || tx.IsCoinStake() then 0 else ValueIn(v, Inputs(tx)) - ValueOut(tx)
  }

  /** The first i transactions are connected; what remains decides. */
  ghost predicate Done(v: View, txs: seq<Tx>, height: int, i: nat, view: View, all: seq<seq<TxInUndo>>, nIn: int, nOut: int, nFees: int)
    requires i <= |txs|
  {
    && (CanConnect(v, txs, height) <==> CanConnect(view, txs[i..], height))
    && (CanConnect(v, txs, height) ==>
          && ConnectTxs(v, txs, height) == ConnectTxs(view, txs[i..], height)
          && BlockUndo(v, txs, height) == all + BlockUndo(view, txs[i..], height)
          && (AllHaveInputs(v, txs, height) <==> AllHaveInputs(view, txs[i..], height))
          && (AllHaveInputs(v, txs, height) ==> 
                BlockIn(v, txs, height) == nIn + BlockIn(view, txs[i..], height)
                && BlockFees(v, txs, height) == nFees + BlockFees(view, txs[i..], height)))
    && BlockOut(txs) == nOut + BlockOut(txs[i..])
  }

  lemma NothingDone(v: View, txs: seq<Tx>, height: int)
    ensures Done(v, txs, height, 0, v, [], 0, 0, 0)
  {
    assert txs[0..] == txs;
    if CanConnect(v, txs, height) {
      assert [] + BlockUndo(v, txs, height) == BlockUndo(v, txs, height);
    }
  }

  lemma AllDone(v: View, txs: seq<Tx>, height: int, view: View, all: seq<seq<TxInUndo>>, nIn: int, nOut: int, nFees: int)
    requires Done(v, txs, height, |txs|, view, all, nIn, nOut, nFees)
    ensures CanConnect(v, txs, height) && AllHaveInputs(v, txs, height)
    ensures view == ConnectTxs(v, txs, height) && all == BlockUndo(v, txs, height)
    ensures nIn == BlockIn(v, txs, height) && nOut == BlockOut(txs) && nFees == BlockFees(v, txs, height)
  {
    assert txs[|txs|..] == [];
    assert all + [] == all;
  }

  lemma NextTx(v: View, txs: seq<Tx>, height: int, i: nat, view: View, all: seq<seq<TxInUndo>>, nIn: int, nOut: int, nFees: int)
    requires i < |txs| && GoodView(view) && Checked(txs[i]) && Done(v, txs, height, i, view, all, nIn, nOut, nFees)
    ensures !HaveInputs(view, txs[i]) ==> !CanConnect(v, txs, height)
    ensures HaveInputs(view, txs[i]) ==>
              && CanSpendAll(view, Inputs(txs[i]))
              && Done(v, txs, height, i + 1, ApplyTx(view, txs[i], height), all + [UndosOf(view, Inputs(txs[i]))],
                      nIn + ValueIn(view, Inputs(txs[i])), nOut + ValueOut(txs[i]), nFees + Fee(view, txs[i]))
  {
    hide CanConnect, ConnectTxs, BlockUndo, AllHaveInputs, BlockIn, BlockOut, BlockFees;
    hide CanSpendAll, GoodView, HaveInputs, ApplyTx, UndosOf, ValueIn, ValueOut, Inputs, Checked;
    assert txs[i..][0] == txs[i] && txs[i..][1..] == txs[i + 1..];
    InputsThere(view, txs[i]);
    Unroll(view, txs[i..], height);
    if HaveInputs(view, txs[i]) && CanConnect(v, txs, height) {
      assert all + [UndosOf(view, Inputs(txs[i]))] + BlockUndo(ApplyTx(view, txs[i], height), txs[i + 1..], height)
          == all + ([UndosOf(view, Inputs(txs[i]))] + BlockUndo(ApplyTx(view, txs[i], height), txs[i + 1..], height));
    }
  }

  lemma Unroll(v: View, txs: seq<Tx>, height: int)
    requires txs != []
    ensures CanConnect(v, txs, height) <==> CanSpendAll(v, Inputs(txs[0])) && CanConnect(ApplyTx(v, txs[0], height), txs[1..], height)
    ensures CanConnect(v, txs, height) ==>
              var v1 := ApplyTx(v, txs[0], height);
              && ConnectTxs(v, txs, height) == ConnectTxs(v1, txs[1..], height)
              && BlockUndo(v, txs, height) == [UndosOf(v, Inputs(txs[0]))] + BlockUndo(v1, txs[1..], height)
              && (AllHaveInputs(v, txs, height) <==> HaveInputs(v, txs[0]) && AllHaveInputs(v1, txs[1..], height))
              && (AllHaveInputs(v, txs, height) ==>
                    BlockIn(v, txs, height) == ValueIn(v, Inputs(txs[0])) + BlockIn(v1, txs[1..], height)
                    && BlockFees(v, txs, height) == Fee(v, txs[0]) + BlockFees(v1, txs[1..], height))
    ensures BlockOut(txs) == ValueOut(txs[0]) + BlockOut(txs[1..])
  {
  }

  lemma InputsThere(v: View, tx: Tx)
    requires GoodView(v) && Checked(tx)
    ensures HaveInputs(v, tx) <==> CanSpendAll(v, Inputs(tx))
  {
    if HaveInputs(v, tx) {
      HaveInputsSuffices(v, Inputs(tx));
    } else if CanSpendAll(v, Inputs(tx)) {
      CanSpendAllNeeds(v, Inputs(tx));
    }
  }

  /** ConnectBlock on a view: exactly when it fails, and that otherwise the view stands for the connected flat map. */
  method ConnectBlock(view: CoinsView, txs: seq<Tx>, height: int, hash: nat, rest: bool) returns (r: Option<Totals>)
    requires view.Wired() && view.Valid() && view.base != null && GoodView(view.Flat()) && height >= 1 && BlockChecked(txs) && hash != 0
    modifies view.Repr
    ensures view.Valid() && view.base.Flat() == old(view.base.Flat()) && view.base.BestBlock() == old(view.base.BestBlock())
    ensures r.Some? <==> rest && CanConnect(old(view.Flat()), txs, height)
    ensures r.Some? ==>
              var v := old(view.Flat());
              && view.Flat() == ConnectTxs(v, txs, height) && r.value.vtxundo == BlockUndo(v, txs, height)[1..]
              && AllHaveInputs(v, txs, height) && r.value.nValueIn == BlockIn(v, txs, height) && r.value.nValueOut == BlockOut(txs)
              && r.value.nFees == BlockFees(v, txs, height)
    ensures if r.Some? then view.hashBlock == hash else view.BestBlock() == old(view.BestBlock()) && view.hashBlock == old(view.hashBlock)
  {
    hide CanConnect, ConnectTxs, BlockUndo, AllHaveInputs, BlockIn, BlockOut, BlockFees, Done;
    hide CanSpendAll, GoodView, ApplyTx, UndosOf, ValueIn, ValueOut, HaveInputs, Inputs, Checked, CanSpend;
    ghost var v := view.Flat();
    var all, nValueIn, nValueOut, nFees := [], 0, 0, 0;
    NothingDone(v, txs, height);
    var i := 0;
    while i < |txs|
      invariant 0 <= i <= |txs| && view.Valid() && GoodView(view.Flat()) && |all| == i
      invariant Done(v, txs, height, i, view.Flat(), all, nValueIn, nValueOut, nFees)
      invariant view.base.Flat() == old(view.base.Flat()) && view.base.BestBlock() == old(view.base.BestBlock()) && view.BestBlock() == old(view.BestBlock()) && view.hashBlock == old(view.hashBlock)
    {
      var tx := txs[i];
      ghost var flat := view.Flat();
      var found := HasInputs(view, tx);
      NextTx(v, txs, height, i, flat, all, nValueIn, nValueOut, nFees);
      if !found {
        return None;
      }
      var valueIn := GetValueIn(view, tx);
      if !tx.IsCoinBase() && !tx.IsCoinStake() {
        nFees := nFees + valueIn - ValueOut(tx);
      }
      nValueIn, nValueOut := nValueIn + valueIn, nValueOut + ValueOut(tx);
      ApplyTxGood(flat, tx, height);
      var txundo := UpdateCoins(view, tx, height);
      all := all + [txundo];
      i := i + 1;
    }
    AllDone(v, txs, height, view.Flat(), all, nValueIn, nValueOut, nFees);
    if !rest {
      return None;
    }
    view.SetBestBlock(hash);
    return Some(Totals(all[1..], nValueIn, nValueOut, nFees));
  }

  // ---------- disconnecting ----------

  /** What the removal of a transaction's outputs finds does not depend on what a pruned entry remembers. */
  lemma OutsAgree(flat: View, tx: Tx, height: int, c: CoinsValue)
    requires Agrees(c, flat, tx.txid)
    ensures SameCoins(Comparable(c, tx), FromTx(tx, height)) <==> SameCoins(Outs(flat, tx), FromTx(tx, height))
  {
    if c.vout == [] {
      assert WithoutUnspendable(c.vout) == [] && WithoutUnspendable(NO_COINS.vout) == [];
    }
  }

  /** Unspendable outputs are dropped, and a version that cannot be stored is corrected. */
  function Comparable(c: CoinsValue, tx: Tx): CoinsValue {
    c.(vout := Cleaned(WithoutUnspendable(c.vout)), nVersion := if tx.nVersion < 0 then tx.nVersion else c.nVersion)
  }

  /** No complaint about restoring an output into these coins. */
  predicate RestoreClean(c: CoinsValue, n: nat, undo: TxInUndo) {
    && (undo.nHeight != 0 <==> AllNull(c.vout))
    && !IsAvailable(if undo.nHeight != 0 then [] else c.vout, n)
  }

  lemma RestoreAgrees(flat: View, out: OutPoint, c: CoinsValue, undo: TxInUndo)
    requires Agrees(c, flat, out.hash) && Unpruned(flat)
    ensures RestoreClean(c, out.n, undo) <==> UndoClean(flat, out, undo)
    ensures UndoClean(flat, out, undo) ==> Put(flat, out.hash, UndoCoins(c, out.n, undo)) == UndoSpend(flat, out, undo)
  {
    if out.hash in flat {
      PrunedIsEmpty(flat[out.hash].vout);
      CleanedUnique(flat[out.hash].vout, flat[out.hash].vout);
    }
  }

  /** Restore the inputs of one transaction, last to first. What an unclean undo leaves is not looked at. */
  method RestoreInputs(view: CoinsView, vin: seq<OutPoint>, vprevout: seq<TxInUndo>) returns (fClean: bool)
    requires view.Wired() && view.Valid() && view.base != null && |vin| == |vprevout|
    modifies view.Repr
    ensures view.Valid() && (fClean <==> UndoAllClean(old(view.Flat()), vin, vprevout))
    ensures fClean ==> view.Flat() == UndoAll(old(view.Flat()), vin, vprevout)
    ensures view.base.Flat() == old(view.base.Flat()) && view.base.BestBlock() == old(view.base.BestBlock()) && view.BestBlock() == old(view.BestBlock()) && view.hashBlock == old(view.hashBlock)
  {
    hide Agrees, UndoClean, UndoSpend, UndoCoins, Put, RestoreClean, Unpruned;
    ghost var v := view.Flat();
    fClean := true;
    var j := |vin|;
    while j > 0
      invariant 0 <= j <= |vin| && view.Valid() && (fClean <==> UndoAllClean(v, vin[j..], vprevout[j..]))
      invariant fClean ==> view.Flat() == UndoAll(v, vin[j..], vprevout[j..])
      invariant view.base.Flat() == old(view.base.Flat()) && view.base.BestBlock() == old(view.base.BestBlock()) && view.BestBlock() == old(view.BestBlock()) && view.hashBlock == old(view.hashBlock)
    {
      j := j - 1;
      assert vin[j..][0] == vin[j] && vin[j..][1..] == vin[j + 1..] && vprevout[j..][0] == vprevout[j] && vprevout[j..][1..] == vprevout[j + 1..];
      var out, undo := vin[j], vprevout[j];
      ghost var flat := view.Flat();
      view.FlatUnpruned();
      var c := view.ModifyCoins(out.hash, c => UndoCoins(c, out.n, undo));
      RestoreAgrees(flat, out, c, undo);
      fClean := fClean && RestoreClean(c, out.n, undo);
    }
  }

  /** Remove what is left of a transaction's outputs; they must be those that connecting it made. */
  method RemoveOutputs(view: CoinsView, tx: Tx, height: int) returns (clean: bool)
    requires view.Wired() && view.Valid() && view.base != null
    modifies view.Repr
    ensures view.Valid() && view.Flat() == old(view.Flat()) - {tx.txid}
    ensures clean <==> SameCoins(Outs(old(view.Flat()), tx), FromTx(tx, height))
    ensures view.base.Flat() == old(view.base.Flat()) && view.base.BestBlock() == old(view.base.BestBlock())
    ensures view.BestBlock() == old(view.BestBlock()) && view.hashBlock == old(view.hashBlock)
  {
    hide Agrees, Put, FromTx, Comparable, SameCoins, Outs;
    ghost var flat := view.Flat();
    var outs := view.ModifyCoins(tx.txid, _ => NO_COINS);
    OutsAgree(flat, tx, height, outs);
    PutNothing(flat, tx.txid);
    clean := SameCoins(Comparable(outs, tx), FromTx(tx, height));
  }

  lemma UndoneIs(v: View, tx: Tx, undos: seq<TxInUndo>, height: int)
    requires |undos| == |Inputs(tx)|
    ensures UndoTx(v, tx, undos) == UndoAll(v - {tx.txid}, Inputs(tx), undos)
    ensures UndoTxClean(v, tx, undos, height) <==> SameCoins(Outs(v, tx), FromTx(tx, height)) && UndoAllClean(v - {tx.txid}, Inputs(tx), undos)
  {
  }

  /** DisconnectBlock on a view: exactly when it fails or is unclean, and that otherwise the view stands for the flat
      map with the block undone. */
  method DisconnectBlock(view: CoinsView, txs: seq<Tx>, height: int, vtxundo: seq<seq<TxInUndo>>, hashPrev: nat) returns (ok: bool, fClean: bool)
    requires view.Wired() && view.Valid() && view.base != null && BlockChecked(txs) && hashPrev != 0
    modifies view.Repr
    ensures view.Valid() && view.base.Flat() == old(view.base.Flat()) && view.base.BestBlock() == old(view.base.BestBlock())
    ensures ok <==> Matches(txs, [[]] + vtxundo)
    ensures ok ==> (fClean <==> UndoTxsClean(old(view.Flat()), txs, [[]] + vtxundo, height))
    ensures ok && fClean ==> view.Flat() == UndoTxs(old(view.Flat()), txs, [[]] + vtxundo)
    ensures if ok then view.hashBlock == hashPrev else view.BestBlock() == old(view.BestBlock()) && view.hashBlock == old(view.hashBlock)
  {
    fClean := true;
    if |vtxundo| + 1 != |txs| {
      return false, false;
    }
    hide FromTx, SameCoins, Outs, UndoAll, UndoAllClean, UndoTx, UndoTxClean, Checked;
    ghost var v, all := view.Flat(), [[]] + vtxundo;
    var i := |txs|;
    while i > 0
      invariant 0 <= i <= |txs| == |all| && view.Valid() && Matches(txs[i..], all[i..])
      invariant fClean <==> UndoTxsClean(v, txs[i..], all[i..], height)
      invariant fClean ==> view.Flat() == UndoTxs(v, txs[i..], all[i..])
      invariant view.base.Flat() == old(view.base.Flat()) && view.base.BestBlock() == old(view.base.BestBlock()) && view.BestBlock() == old(view.BestBlock()) && view.hashBlock == old(view.hashBlock)
    {
      i := i - 1;
      assert txs[i..][0] == txs[i] && txs[i..][1..] == txs[i + 1..] && all[i..][0] == all[i] && all[i..][1..] == all[i + 1..];
      var tx := txs[i];
      ghost var flat := view.Flat();
      var clean := RemoveOutputs(view, tx, height);
      if i > 0 {
        if |vtxundo[i - 1]| != |tx.vin| {
          assert !Matches(txs, all) by { assert all[i] == vtxundo[i - 1]; }
          return false, false;
        }
        assert all[i] == vtxundo[i - 1] && Inputs(tx) == tx.vin;
        var restored := RestoreInputs(view, tx.vin, vtxundo[i - 1]);
        clean := clean && restored;
      } else {
        NoInputs(flat - {tx.txid}, tx, all[0]);
      }
      UndoneIs(flat, tx, all[i], height);
      fClean := fClean && clean;
    }
    assert txs[0..] == txs && all[0..] == all;
    view.SetBestBlock(hashPrev);
    ok := true;
  }

  lemma PutNothing(flat: View, h: TxId)
    ensures Put(flat, h, NO_COINS) == flat - {h}
  {
  }

  lemma NoInputs(v: View, tx: Tx, undos: seq<TxInUndo>)
    requires tx.IsCoinBase() && undos == []
    ensures UndoAll(v, Inputs(tx), undos) == v && UndoAllClean(v, Inputs(tx), undos)
  {
  }

  // ---------- tips ----------

  /** ConnectTip: the block is connected to a cache over the coins, which is flushed if that succeeds and dropped if not. */
  method ConnectTip(pcoinsTip: CoinsView, txs: seq<Tx>, height: int, hash: nat, rest: bool) returns (r: Option<Totals>)
    requires pcoinsTip.Wired() && pcoinsTip.Valid() && GoodView(pcoinsTip.Flat()) && height >= 1 && BlockChecked(txs) && hash != 0
    modifies pcoinsTip.Repr
    ensures pcoinsTip.Valid()
    ensures r.Some? <==> rest && CanConnect(old(pcoinsTip.Flat()), txs, height)
    ensures r.Some? ==>
              var v := old(pcoinsTip.Flat());
              && pcoinsTip.Flat() == ConnectTxs(v, txs, height) && r.value.vtxundo == BlockUndo(v, txs, height)[1..]
              && AllHaveInputs(v, txs, height) && r.value.nValueIn == BlockIn(v, txs, height) && r.value.nValueOut == BlockOut(txs)
              && r.value.nFees == BlockFees(v, txs, height) && pcoinsTip.BestBlock() == hash
    ensures r == None ==> pcoinsTip.Flat() == old(pcoinsTip.Flat()) && pcoinsTip.BestBlock() == old(pcoinsTip.BestBlock())
  {
    hide CanConnect, ConnectTxs, BlockUndo, AllHaveInputs, BlockIn, BlockOut, BlockFees, GoodView, BlockChecked;
    var view := new CoinsView.Cache(pcoinsTip);
    r := ConnectBlock(view, txs, height, hash, rest);
    if r.Some? {
      view.Flush();
    }
  }

  /** DisconnectTip: nothing changes unless the block is undone cleanly. */
  method DisconnectTip(pcoinsTip: CoinsView, txs: seq<Tx>, height: int, vtxundo: seq<seq<TxInUndo>>, hashPrev: nat) returns (ok: bool)
    requires pcoinsTip.Wired() && pcoinsTip.Valid() && BlockChecked(txs) && hashPrev != 0
    modifies pcoinsTip.Repr
    ensures pcoinsTip.Valid()
    ensures ok <==> Matches(txs, [[]] + vtxundo) && UndoTxsClean(old(pcoinsTip.Flat()), txs, [[]] + vtxundo, height)
    ensures ok ==> pcoinsTip.Flat() == UndoTxs(old(pcoinsTip.Flat()), txs, [[]] + vtxundo) && pcoinsTip.BestBlock() == hashPrev
    ensures !ok ==> pcoinsTip.Flat() == old(pcoinsTip.Flat()) && pcoinsTip.BestBlock() == old(pcoinsTip.BestBlock())
  {
    hide UndoTxs, UndoTxsClean, Matches, BlockChecked;
    var view := new CoinsView.Cache(pcoinsTip);
    var done, fClean := DisconnectBlock(view, txs, height, vtxundo, hashPrev);
    ok := done && fClean;
    if ok {
      view.Flush();
    }
  }
}
