/**
 The coin set behind pcoinsTip as tips are connected and disconnected (src/main.cpp:1986-2000, 2111-2196,
 2237-2425, 2539-2660): a stack of caches over the database, whose flat map follows the active chain.
 */
module CoinState {
  import opened Options
  import opened Coins
  import opened BlockCoins
  import opened Conservation
  import opened CoinChain
  import opened CoinsCache
  import BlockViews

  class CCoinState {
    const hash: Node -> nat
    const pcoinsTip: CoinsView
    var tip: Node
    var undo: map<Node, seq<seq<TxInUndo>>>
    var nMoneySupply: map<Node, int>
    /** Coins that a disconnection restored: they have lost their coinstake flag and the sign of their version. */
    ghost var lost: set<TxId>

    ghost predicate Valid()
      reads this, pcoinsTip.Repr
    {
      && pcoinsTip.Wired() && pcoinsTip.Valid() && (forall b :: hash(b) != 0)
      && Good(tip) && pcoinsTip.BestBlock() == hash(tip)
      && pcoinsTip.Flat() == Worn(Replay(tip), lost)
      && (forall b | b in undo :: UndoRight(b, undo[b]))
      && Recorded(tip, undo, nMoneySupply)
    }

    /** The state after genesis, which adds no coins, on any stack of views. */
    constructor (view: CoinsView, hash: Node -> nat)
      requires view.Wired() && view.Valid() && view.Flat() == map[] && view.BestBlock() == hash(Genesis) && forall b :: hash(b) != 0
      ensures Valid() && tip == Genesis && lost == {} && pcoinsTip == view
    {
      this.hash := hash;
      pcoinsTip := view;
      tip := Genesis;
      undo, nMoneySupply := map[], map[];
      lost := {};
    }

    /** Connect a block to the tip. `rest` stands for the checks of ConnectBlock that do not concern coins. */
    method ConnectTip(id: nat, txs: seq<Tx>, rest: bool) returns (ok: bool)
      requires Valid()
      requires CanConnect(Replay(tip), txs, Height(tip) + 1) ==> FreshBlock(Replay(tip), txs, Height(tip) + 1)
      modifies this, pcoinsTip.Repr
      ensures Valid()
      ensures ok <==> rest && BlockChecked(txs) && CanConnect(Replay(old(tip)), txs, Height(old(tip)) + 1)
      ensures ok ==> tip == Child(old(tip), id, txs) && lost == old(lost) - Created(txs)
      ensures ok ==> tip in undo && undo == if tip in old(undo) then old(undo) else old(undo)[tip := undo[tip]]
      ensures !ok ==> tip == old(tip) && pcoinsTip.Flat() == old(pcoinsTip.Flat()) && undo == old(undo) && lost == old(lost)
    {
      hide Good, Replay, Worn, CanConnect, ConnectTxs, FreshBlock, BlockUndo, AllHaveInputs, BlockIn, BlockOut, GoodView, Supply;
      hide UndoRight, Recorded, Checked, Created, BlockFees, Inputs, CoinsView.Flat, CoinsView.Valid, CoinsView.BestBlock, CoinsView.Wired;
      if !(|txs| > 0 && forall i | 0 <= i < |txs| :: txs[i].IsCoinBase() == (i == 0) && Checked(txs[i])) {
        return false;
      }
      var height := Height(tip) + 1;
      ReplayGood(tip);
      WornGood(Replay(tip), lost);
      ChildGood(tip, id, txs);
      var pindexNew := Child(tip, id, txs);
      var r := BlockViews.ConnectTip(pcoinsTip, txs, height, hash(pindexNew), rest);
      ConnectWorn(Replay(tip), txs, height, lost);
      if r == None {
        return false;
      }
      ConnectedRight(pindexNew, lost, pcoinsTip.Flat(), r.value);
      NextRecorded(pindexNew, undo, nMoneySupply, r.value);
      nMoneySupply := nMoneySupply[pindexNew := (if tip == Genesis then 0 else nMoneySupply[tip]) + r.value.nValueOut - r.value.nValueIn];
      if pindexNew !in undo {
        undo := undo[pindexNew := r.value.vtxundo];
      }
      lost := lost - Created(txs);
      tip := pindexNew;
      return true;
    }

    /** Disconnect the tip with the undo data of its first connection, read back from disk. It fails exactly if the
        coin of a coinstake of the block has lost its flag, or was spent entirely by the block itself; if it succeeds,
        the coins are the replay of the shorter chain, up to what coins lose that the block had spent entirely. */
    method DisconnectTip() returns (ok: bool)
      requires Valid() && tip != Genesis
      modifies this, pcoinsTip.Repr
      ensures Valid()
      ensures ok <==> Matches(old(tip).vtx, [[]] + old(undo)[old(tip)])
                      && StakesWhole(old(pcoinsTip.Flat()), old(tip).vtx, [[]] + old(undo)[old(tip)])
      ensures ok ==> tip == old(tip).pprev && undo == old(undo)
      ensures ok && Lossless(BlockUndo(Replay(old(tip).pprev), old(tip).vtx, Height(old(tip))), Height(old(tip))) ==> lost == old(lost)
      ensures !ok ==> tip == old(tip) && pcoinsTip.Flat() == old(pcoinsTip.Flat()) && undo == old(undo) && lost == old(lost)
    {
      hide Good, Replay, Worn, CanConnect, StakesKept, BlockUndo, UndoTxs, UndoTxsClean, Matches, Lossless, WornBy, Supply;
      hide UndoRight, BlockChecked, CoinsView.Flat, CoinsView.Valid, CoinsView.BestBlock, CoinsView.Wired;
      TipGood(tip);
      DisconnectedRight(tip, lost, undo[tip]);
      ok := BlockViews.DisconnectTip(pcoinsTip, tip.vtx, Height(tip), BlockStored(undo[tip]), hash(tip.pprev));
      if ok {
        lost := lost + WornBy(tip);
        tip := tip.pprev;
      }
    }
  }

  // ---------- what holds along every run ----------

  /** Undo data written is what the block's first connection recorded, up to what restored coins have lost. */
  ghost predicate UndoRight(b: Node, vtxundo: seq<seq<TxInUndo>>) {
    b != Genesis && Good(b) && SameBlockUndo([[]] + vtxundo, BlockUndo(Replay(b.pprev), b.vtx, Height(b)))
  }

  ghost predicate Recorded(b: Node, undo: map<Node, seq<seq<TxInUndo>>>, supply: map<Node, int>) {
    b == Genesis || (b in undo && b in supply && Good(b) && supply[b] == Supply(b) && Recorded(b.pprev, undo, supply))
  }

  lemma ChildGood(b: Node, id: nat, txs: seq<Tx>)
    requires Good(b)
    ensures Good(Child(b, id, txs)) <==>
              BlockChecked(txs) && CanConnect(Replay(b), txs, Height(b) + 1) && FreshBlock(Replay(b), txs, Height(b) + 1)
  {
    hide BlockChecked, CanConnect, FreshBlock, ConnectTxs, Replay;
  }

  lemma TipGood(b: Node)
    requires Good(b) && b != Genesis
    ensures Good(b.pprev) && BlockChecked(b.vtx) && CanConnect(Replay(b.pprev), b.vtx, Height(b))
  {
  }

  lemma WornGood(v: View, lost: set<TxId>)
    requires GoodView(v)
    ensures GoodView(Worn(v, lost))
  {
  }

  lemma {:induction false} ValueInWorn(v: View, vin: seq<OutPoint>, lost: set<TxId>)
    requires (forall out | out in vin :: CanSpend(v, out)) && (forall out | out in vin :: CanSpend(Worn(v, lost), out))
    ensures ValueIn(Worn(v, lost), vin) == ValueIn(v, vin)
  {
    if vin != [] {
      ValueInWorn(v, vin[1..], lost);
    }
  }

  lemma {:induction false} BlockInWorn(v: View, txs: seq<Tx>, height: int, lost: set<TxId>)
    requires CanConnect(v, txs, height) && AllHaveInputs(v, txs, height)
    requires CanConnect(Worn(v, lost), txs, height) && AllHaveInputs(Worn(v, lost), txs, height)
    ensures BlockIn(Worn(v, lost), txs, height) == BlockIn(v, txs, height)
    decreases |txs|
  {
    if txs != [] {
      ValueInWorn(v, Inputs(txs[0]), lost);
      SpendAllWorn(v, Inputs(txs[0]), lost);
      ApplyWorn(v, txs[0], height, lost);
      BlockInWorn(ApplyTx(v, txs[0], height), txs[1..], height, lost - {txs[0].txid});
    }
  }

  lemma ConnectedRight(b: Node, lost: set<TxId>, view: View, c: BlockViews.Totals)
    requires b != Genesis && Good(b)
    requires CanConnect(Worn(Replay(b.pprev), lost), b.vtx, Height(b))
    requires view == ConnectTxs(Worn(Replay(b.pprev), lost), b.vtx, Height(b))
    requires c.vtxundo == BlockUndo(Worn(Replay(b.pprev), lost), b.vtx, Height(b))[1..]
    requires AllHaveInputs(Worn(Replay(b.pprev), lost), b.vtx, Height(b))
    requires c.nValueIn == BlockIn(Worn(Replay(b.pprev), lost), b.vtx, Height(b)) && c.nValueOut == BlockOut(b.vtx)
    ensures view == Worn(Replay(b), lost - Created(b.vtx))
    ensures UndoRight(b, c.vtxundo)
    ensures Supply(b) == (if b.pprev == Genesis then 0 else Supply(b.pprev)) + c.nValueOut - c.nValueIn
  {
    var v := Replay(b.pprev);
    ReplayGood(b.pprev);
    ConnectHasInputs(v, b.vtx, Height(b));
    ConnectWorn(v, b.vtx, Height(b), lost);
    BlockInWorn(v, b.vtx, Height(b), lost);
    var all := BlockUndo(Worn(v, lost), b.vtx, Height(b));
    assert all[0] == [] by { assert b.vtx[0].IsCoinBase(); }
    assert [[]] + all[1..] == all;
  }

  lemma {:induction false} StillRecorded(b: Node, undo: map<Node, seq<seq<TxInUndo>>>, supply: map<Node, int>,
      undo': map<Node, seq<seq<TxInUndo>>>, supply': map<Node, int>, b': Node)
    requires Recorded(b, undo, supply) && undo.Keys <= undo'.Keys
    requires b' != b && forall x | x in supply && x != b' :: x in supply' && supply'[x] == supply[x]
    requires Height(b) < Height(b')
    ensures Recorded(b, undo', supply')
  {
    if b != Genesis {
      StillRecorded(b.pprev, undo, supply, undo', supply', b');
    }
  }

  lemma NextRecorded(b: Node, undo: map<Node, seq<seq<TxInUndo>>>, supply: map<Node, int>, c: BlockViews.Totals)
    requires b != Genesis && Good(b) && Recorded(b.pprev, undo, supply) && UndoRight(b, c.vtxundo)
    requires forall x | x in undo :: UndoRight(x, undo[x])
    requires Supply(b) == (if b.pprev == Genesis then 0 else Supply(b.pprev)) + c.nValueOut - c.nValueIn
    ensures b.pprev != Genesis ==> b.pprev in supply
    ensures var undo' := if b in undo then undo else undo[b := c.vtxundo];
            var supply' := supply[b := (if b.pprev == Genesis then 0 else supply[b.pprev]) + c.nValueOut - c.nValueIn];
            Recorded(b, undo', supply') && forall x | x in undo' :: UndoRight(x, undo'[x])
  {
    hide Good, Supply, UndoRight;
    var undo' := if b in undo then undo else undo[b := c.vtxundo];
    var supply' := supply[b := (if b.pprev == Genesis then 0 else supply[b.pprev]) + c.nValueOut - c.nValueIn];
    StillRecorded(b.pprev, undo, supply, undo', supply', b);
  }

  /** The coins of earlier blocks that a block spends entirely and that lose something when they are restored. */
  ghost function WornBy(b: Node): set<TxId>
    requires b != Genesis && Good(b)
  {
    var v := Replay(b.pprev);
    set h | h in FullySpentBlock(b.vtx, BlockUndo(v, b.vtx, Height(b))) && h in v && WornCoins(v[h]) != v[h]
  }

  lemma DisconnectedRight(b: Node, lost: set<TxId>, vtxundo: seq<seq<TxInUndo>>)
    requires b != Genesis && Good(b) && UndoRight(b, vtxundo)
    ensures Matches(b.vtx, [[]] + vtxundo) && Matches(b.vtx, [[]] + BlockStored(vtxundo))
    ensures UndoTxs(Worn(Replay(b), lost), b.vtx, [[]] + BlockStored(vtxundo)) == Worn(Replay(b.pprev), lost + WornBy(b))
    ensures UndoTxsClean(Worn(Replay(b), lost), b.vtx, [[]] + BlockStored(vtxundo), Height(b))
            <==> StakesWhole(Worn(Replay(b), lost), b.vtx, [[]] + vtxundo)
    ensures Lossless(BlockUndo(Replay(b.pprev), b.vtx, Height(b)), Height(b)) ==> WornBy(b) == {}
  {
    var v, undos := Replay(b.pprev), BlockUndo(Replay(b.pprev), b.vtx, Height(b));
    ReplayGood(b.pprev);
    assert forall tx | tx in b.vtx :: Checked(tx);
    StoredMatches(b.vtx, vtxundo, undos);
    hide CanConnect, FreshBlock, ConnectTxs, BlockUndo, FullySpentBlock, UndoTxs, UndoTxsClean, StakesKept, StakesWhole, GoodView, Checked, Matches, BlockStored;
    UndoTxsIgnoresFlag(Worn(Replay(b), lost), b.vtx, [[]] + vtxundo, undos, Height(b));
    UndoAfterConnect(v, b.vtx, Height(b), lost);
    OnlyWornMatter(v, lost, FullySpentBlock(b.vtx, undos));
    StakesWholeIff(v, b.vtx, Height(b), lost, [[]] + vtxundo);
    NothingWorn(b);
  }

  lemma StoredMatches(txs: seq<Tx>, vtxundo: seq<seq<TxInUndo>>, undos: seq<seq<TxInUndo>>)
    requires Matches(txs, undos) && SameBlockUndo([[]] + vtxundo, undos)
    ensures Matches(txs, [[]] + vtxundo) && BlockStored([[]] + vtxundo) == [[]] + BlockStored(vtxundo)
    ensures Matches(txs, [[]] + BlockStored(vtxundo))
  {
    var all := [[]] + vtxundo;
    assert forall i | 0 <= i < |undos| :: |all[i]| == |undos[i]|;
    assert BlockStored(all) == [[]] + BlockStored(vtxundo) by { assert AllStored([]) == []; }
    assert forall i | 0 <= i < |all| :: |BlockStored(all)[i]| == |all[i]|;
  }

  lemma NothingWorn(b: Node)
    requires b != Genesis && Good(b)
    ensures Lossless(BlockUndo(Replay(b.pprev), b.vtx, Height(b)), Height(b)) ==> WornBy(b) == {}
  {
    var v, undos := Replay(b.pprev), BlockUndo(Replay(b.pprev), b.vtx, Height(b));
    ReplayGood(b.pprev);
    ReplayBelow(b.pprev);
    assert forall tx | tx in b.vtx :: Checked(tx);
    LosslessIff(v, b.vtx, Height(b));
    hide CanConnect, FreshBlock, ConnectTxs, BlockUndo, FullySpentBlock, StakesKept, GoodView, Checked, Lossless;
  }

  /** The coins of every coinstake of the block still carry the flag, if they are there, and no record of a later
      transaction of the same block spends them entirely. */
  predicate StakesWhole(v: View, txs: seq<Tx>, undos: seq<seq<TxInUndo>>)
    requires Matches(txs, undos)
  {
    forall i | 0 <= i < |txs| && txs[i].IsCoinStake() ::
      (txs[i].txid in v ==> v[txs[i].txid].fCoinStake) && txs[i].txid !in FullySpentBlock(txs[i + 1..], undos[i + 1..])
  }

  /** A coin that a block does not spend entirely is still there, with all its metadata. */
  lemma {:induction false} Survives(v: View, txs: seq<Tx>, height: int, h: TxId)
    requires GoodView(v) && height >= 1 && CanConnect(v, txs, height) && FreshBlock(v, txs, height) && forall tx | tx in txs :: Checked(tx)
    requires h in v && h !in FullySpentBlock(txs, BlockUndo(v, txs, height))
    ensures var v' := ConnectTxs(v, txs, height); h in v' && v'[h] == v[h].(vout := v'[h].vout)
    decreases |txs|
  {
    if txs != [] {
      var tx := txs[0];
      RecordsAreCoins(v, Inputs(tx), height);
      ApplyTxGood(v, tx, height);
      PutAt(SpendAll(v, Inputs(tx)), tx.txid, FromTx(tx, height));
      hide SpendAll, Put, FromTx, CanSpendAll, UndosOf, FullySpent, GoodView, LosslessTx, AllKeep, Checked;
      assert BlockUndo(v, txs, height)[1..] == BlockUndo(ApplyTx(v, tx, height), txs[1..], height);
      Survives(ApplyTx(v, tx, height), txs[1..], height, h);
    }
  }

  /** A coinstake's coins have its empty first output, which is not dropped. */
  lemma StakeMade(v: View, tx: Tx, height: int)
    requires CanSpendAll(v, Inputs(tx)) && tx.IsCoinStake()
    ensures var v1 := ApplyTx(v, tx, height); tx.txid in v1 && v1[tx.txid].fCoinStake
  {
    var w := WithoutUnspendable(tx.vout);
    PrunedIsEmpty(w);
    PrunedIsEmpty(Cleaned(w));
    assert !w[0].IsNull() && w[0] in w;
    assert Cleaned(Cleaned(w)) == Cleaned(w);
  }

  lemma {:induction false} StakesWholeIff(v: View, txs: seq<Tx>, height: int, lost: set<TxId>, undos: seq<seq<TxInUndo>>)
    requires GoodView(v) && height >= 1 && CanConnect(v, txs, height) && FreshBlock(v, txs, height) && forall tx | tx in txs :: Checked(tx)
    requires Matches(txs, undos) && SameBlockUndo(undos, BlockUndo(v, txs, height))
    ensures StakesKept(v, txs, height, lost) <==> StakesWhole(Worn(ConnectTxs(v, txs, height), lost), txs, undos)
    decreases |txs|
  {
    if txs != [] {
      hide ApplyTx, UndosOf, SameButWear, CanSpendAll, GoodView, Checked, Fresh, FullySpentBlock, Worn;
      var tx, rest, v1 := txs[0], txs[1..], ApplyTx(v, txs[0], height);
      var all := BlockUndo(v1, rest, height);
      assert BlockUndo(v, txs, height)[1..] == all;
      ApplyTxGood(v, tx, height);
      StakesWholeIff(v1, rest, height, lost, undos[1..]);
      UndoTxsIgnoresFlag(v1, rest, undos[1..], all, height);
      var w := Worn(ConnectTxs(v1, rest, height), lost);
      WholeStep(w, txs, undos);
      if tx.IsCoinStake() {
        StakeMade(v, tx, height);
        if tx.txid !in FullySpentBlock(rest, all) {
          Survives(v1, rest, height, tx.txid);
          WornAt(ConnectTxs(v1, rest, height), lost, tx.txid);
        }
      }
    }
  }

  lemma WholeStep(v: View, txs: seq<Tx>, undos: seq<seq<TxInUndo>>)
    requires txs != [] && Matches(txs, undos)
    ensures Matches(txs[1..], undos[1..])
    ensures StakesWhole(v, txs, undos) <==>
            && StakesWhole(v, txs[1..], undos[1..])
            && (txs[0].IsCoinStake() ==>
                  (txs[0].txid in v ==> v[txs[0].txid].fCoinStake) && txs[0].txid !in FullySpentBlock(txs[1..], undos[1..]))
  {
    hide FullySpentBlock;
    forall i | 0 <= i < |txs| - 1 ensures txs[1..][i] == txs[i + 1] && txs[1..][i + 1..] == txs[i + 2..] && undos[1..][i + 1..] == undos[i + 2..] {
    }
    if StakesWhole(v, txs, undos) {
      forall i | 0 <= i < |txs[1..]| && txs[1..][i].IsCoinStake()
        ensures (txs[1..][i].txid in v ==> v[txs[1..][i].txid].fCoinStake) && txs[1..][i].txid !in FullySpentBlock(txs[1..][i + 1..], undos[1..][i + 1..]) {
        assert txs[i + 1].IsCoinStake();
      }
    }
    if StakesWhole(v, txs[1..], undos[1..]) {
      forall i | 0 < i < |txs| && txs[i].IsCoinStake()
        ensures (txs[i].txid in v ==> v[txs[i].txid].fCoinStake) && txs[i].txid !in FullySpentBlock(txs[i + 1..], undos[i + 1..]) {
        assert txs[1..][i - 1].IsCoinStake();
      }
    }
  }

  lemma WornAt(v: View, lost: set<TxId>, h: TxId)
    requires h in v
    ensures h in Worn(v, lost) && Worn(v, lost)[h].fCoinStake == (v[h].fCoinStake && h !in lost)
  {
  }

  lemma OnlyWornMatter(v: View, lost: set<TxId>, hs: set<TxId>)
    ensures Worn(v, lost + hs) == Worn(v, lost + set h | h in hs && h in v && WornCoins(v[h]) != v[h])
  {
  }

  lemma {:induction false} TotalWorn(v: View, lost: set<TxId>)
    ensures Total(Worn(v, lost)) == Total(v)
    decreases v.Keys
  {
    if v != map[] {
      var h :| h in v;
      TotalWithout(v, h);
      TotalWithout(Worn(v, lost), h);
      assert Worn(v, lost) - {h} == Worn(v - {h}, lost);
      assert (v - {h}).Keys == v.Keys - {h};
      TotalWorn(v - {h}, lost);
    } else {
      assert Worn(v, lost) == map[];
    }
  }

  /** In every state that connecting and disconnecting can reach, the unspent value and what was dropped as
      unspendable on the active chain add up to the tip's nMoneySupply. */
  lemma MoneySupplyIsRight(s: CCoinState)
    requires s.Valid() && s.tip != Genesis
    ensures s.tip in s.nMoneySupply && Total(s.pcoinsTip.Flat()) + DroppedOnChain(s.tip) == s.nMoneySupply[s.tip]
  {
    SupplyConserved(s.tip);
    TotalWorn(Replay(s.tip), s.lost);
  }
}
