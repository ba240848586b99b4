/**
 The coins along the active chain: connecting and disconnecting tips in any order
 (src/main.cpp:2111-2196, 2237-2425, 2539-2660).
 */
module CoinChain {
  import opened Coins
  import opened BlockCoins
  import opened Conservation

  /** A block with the chain it extends; `id` tells blocks with the same content apart. */
  datatype Node = Genesis | Child(pprev: Node, id: nat, vtx: seq<Tx>)

  function Height(b: Node): nat {
    if b == Genesis then 0 else Height(b.pprev) + 1
  }

  /** CheckBlock: the first transaction, and only that, is a coinbase, and every transaction passes CheckTransaction. */
  predicate BlockChecked(txs: seq<Tx>) {
    && txs != []
    && (forall i | 0 <= i < |txs| :: txs[i].IsCoinBase() == (i == 0) && Checked(txs[i]))
  }

  /** Every block of the chain passed CheckBlock and found its inputs, and brought fresh transaction ids. */
  predicate Good(b: Node)
    decreases b, 1
  {
    b == Genesis ||
    (Good(b.pprev) && BlockChecked(b.vtx) &&
     CanConnect(Replay(b.pprev), b.vtx, Height(b)) && FreshBlock(Replay(b.pprev), b.vtx, Height(b)))
  }

  /** The specification: all transactions from height 1 on, in order. Genesis adds no coins. */
  function Replay(b: Node): View
    requires Good(b)
    decreases b, 2
  {
    if b == Genesis then map[] else ConnectTxs(Replay(b.pprev), b.vtx, Height(b))
  }

  lemma {:induction false} ReplayGood(b: Node)
    requires Good(b)
    ensures GoodView(Replay(b))
  {
    if b != Genesis {
      ReplayGood(b.pprev);
      assert forall tx | tx in b.vtx :: Checked(tx);
      ConnectGood(Replay(b.pprev), b.vtx, Height(b));
    }
  }

  /** Coins on a chain are not younger than its tip. */
  lemma {:induction false} ReplayBelow(b: Node)
    requires Good(b)
    ensures Below(Replay(b), Height(b) + 1)
  {
    if b != Genesis {
      ReplayBelow(b.pprev);
      ReplayGood(b.pprev);
      ConnectBelow(Replay(b.pprev), b.vtx, Height(b));
    }
  }

  lemma {:induction false} ConnectBelow(v: View, txs: seq<Tx>, height: int)
    requires GoodView(v) && height >= 1 && Below(v, height + 1) && CanConnect(v, txs, height) && forall tx | tx in txs :: Checked(tx)
    ensures Below(ConnectTxs(v, txs, height), height + 1)
    decreases |txs|
  {
    if txs != [] {
      var tx := txs[0];
      RecordsAreCoins(v, Inputs(tx), height);
      PutAt(SpendAll(v, Inputs(tx)), tx.txid, FromTx(tx, height));
      ApplyTxGood(v, tx, height);
      ConnectBelow(ApplyTx(v, tx, height), txs[1..], height);
    }
  }

  // ---------- two chains on which a reorganisation loses something ----------

  const DROPPED_OUT := TxOut(0, [OP_RETURN], NULL_OUT.nRounds)

  const PAYS := [Tx(1, 1, [OutPoint(0, 0xffffffff)], [EMPTY_OUT])]

  /** A block whose second transaction spends what PAYS made. */
  function Makes(vout: seq<TxOut>, nVersion: int): seq<Tx> {
    [Tx(2, 1, [OutPoint(0, 0xffffffff)], [EMPTY_OUT]), Tx(7, nVersion, [OutPoint(1, 0)], vout)]
  }

  /** A chain of valid blocks that leaves these coins. */
  predicate Leaves(b: Node, v: View) {
    Good(b) && Replay(b) == v
  }

  /** The coins of CoinStakeFlagIsLost and VersionSignIsLost are those of two chains of valid blocks, and the block
      that spends and loses them extends these chains. */
  lemma LossIsReachable(stake: bool) returns (b: Node)
    ensures Leaves(b, TwoCoins(if stake then CoinsValue(false, true, [EMPTY_OUT], 2, 1) else CoinsValue(false, false, [SOME_OUT], 2, -1)))
    ensures Good(Child(b, 0, SPENDS_LAST))
  {
    var vout, n := if stake then [EMPTY_OUT, DROPPED_OUT] else [SOME_OUT], if stake then 1 else -1;
    var c := CoinsValue(false, stake, [vout[0]], 2, n);
    PaysIs();
    MakesIs(vout, n, c);
    MakesChecked(vout, n);
    SpendsLast(c);
    hide CanConnect, ConnectTxs, FreshBlock, BlockChecked, TwoCoins, SPENDS_LAST, PAYS, Makes, Leaves, Good;
    var b1 := OneMore(Genesis, map[], PAYS, 1);
    b := OneMore(b1, map[1 := CoinsValue(true, false, [EMPTY_OUT], 1, 1)], Makes(vout, n), 2);
    var b3 := OneMore(b, TwoCoins(c), SPENDS_LAST, 3);
  }

  lemma OneMore(b: Node, v: View, txs: seq<Tx>, height: int) returns (b': Node)
    requires (b == Genesis && v == map[]) || Leaves(b, v)
    requires height == Height(b) + 1 && BlockChecked(txs) && CanConnect(v, txs, height) && FreshBlock(v, txs, height)
    ensures b' == Child(b, 0, txs) && Height(b') == height && Good(b') && Leaves(b', ConnectTxs(v, txs, height))
  {
    hide CanConnect, ConnectTxs, FreshBlock, BlockChecked;
    b' := Child(b, 0, txs);
  }

  lemma PaysIs()
    ensures BlockChecked(PAYS) && CanConnect(map[], PAYS, 1) && FreshBlock(map[], PAYS, 1)
    ensures ConnectTxs(map[], PAYS, 1) == map[1 := CoinsValue(true, false, [EMPTY_OUT], 1, 1)]
    ensures BlockChecked(SPENDS_LAST)
  {
    FirstLeft(PAYS[0], 1);
    OneOutput(map[], 1, CoinsValue(true, false, [EMPTY_OUT], 1, 1));
    SpendsLastChecked();
    hide Put, Spend, SpendUndo, CanSpend, FromTx;
    assert PAYS[1..] == [];
  }

  lemma MakesChecked(vout: seq<TxOut>, n: int)
    requires vout == [EMPTY_OUT, DROPPED_OUT] || vout == [SOME_OUT]
    ensures BlockChecked(Makes(vout, n))
  {
    var tx := Makes(vout, n)[1];
    assert tx.IsCoinStake() <==> |vout| == 2;
  }

  lemma MakesIs(vout: seq<TxOut>, n: int, c: CoinsValue)
    requires vout == [EMPTY_OUT, DROPPED_OUT] || vout == [SOME_OUT]
    requires c == CoinsValue(false, |vout| == 2, [vout[0]], 2, n)
    ensures var v, txs := map[1 := CoinsValue(true, false, [EMPTY_OUT], 1, 1)], Makes(vout, n);
            && CanConnect(v, txs, 2) && FreshBlock(v, txs, 2) && ConnectTxs(v, txs, 2) == TwoCoins(c)
  {
    var c1, c2 := CoinsValue(true, false, [EMPTY_OUT], 1, 1), CoinsValue(true, false, [EMPTY_OUT], 2, 1);
    var v, txs := map[1 := c1], Makes(vout, n);
    FirstLeft(txs[0], 2);
    FirstLeft(txs[1], 2);
    hide Put, Spend, SpendUndo, CanSpend, FromTx, CanConnect, FreshBlock, ConnectTxs;
    OneOutput(v, 2, c2);
    OneOutput(map[2 := c2], 1, c1);
    assert map[2 := c2][1 := c1] == v[2 := c2] && map[2 := c2] - {1} == map[2 := c2];
    OneOutput(map[2 := c2], 7, c);
    TwoTxs(v, txs[0], txs[1], 2, v[2 := c2]);
  }

  // ---------- connecting on a view in which coins were restored ----------

  function Erased(u: TxInUndo): TxInUndo {
    u.(fCoinStake := false, nVersion := NumberRead(u.nVersion))
  }

  /** Undo data that differs at most in coinstake flags and in the signs of versions. */
  predicate SameButWear(a: seq<TxInUndo>, b: seq<TxInUndo>) {
    |a| == |b| && forall i | 0 <= i < |a| :: Erased(a[i]) == Erased(b[i])
  }

  predicate SameBlockUndo(a: seq<seq<TxInUndo>>, b: seq<seq<TxInUndo>>) {
    |a| == |b| && forall i | 0 <= i < |a| :: SameButWear(a[i], b[i])
  }

  lemma SpendWorn(v: View, out: OutPoint, lost: set<TxId>)
    ensures CanSpend(Worn(v, lost), out) <==> CanSpend(v, out)
    ensures CanSpend(v, out) ==>
              && Spend(Worn(v, lost), out) == Worn(Spend(v, out), lost)
              && Erased(SpendUndo(Worn(v, lost), out)) == Erased(SpendUndo(v, out))
  {
    GetWorn(v, lost, out.hash);
  }

  lemma {:induction false} SpendAllWorn(v: View, vin: seq<OutPoint>, lost: set<TxId>)
    ensures CanSpendAll(Worn(v, lost), vin) <==> CanSpendAll(v, vin)
    ensures CanSpendAll(v, vin) ==>
              && SpendAll(Worn(v, lost), vin) == Worn(SpendAll(v, vin), lost)
              && SameButWear(UndosOf(Worn(v, lost), vin), UndosOf(v, vin))
    decreases |vin|
  {
    hide Spend, Worn, SpendUndo, CanSpend;
    if vin != [] {
      SpendWorn(v, vin[0], lost);
      if CanSpend(v, vin[0]) {
        SpendAllWorn(Spend(v, vin[0]), vin[1..], lost);
      }
    }
  }

  function Created(txs: seq<Tx>): set<TxId> {
    set tx | tx in txs :: tx.txid
  }

  /** What restored coins have lost changes neither whether a block connects nor the undo data beyond that; coins
      that the block creates have lost nothing. */
  lemma {:induction false} ConnectWorn(v: View, txs: seq<Tx>, height: int, lost: set<TxId>)
    ensures CanConnect(Worn(v, lost), txs, height) <==> CanConnect(v, txs, height)
    ensures CanConnect(v, txs, height) ==>
              && ConnectTxs(Worn(v, lost), txs, height) == Worn(ConnectTxs(v, txs, height), lost - Created(txs))
              && SameBlockUndo(BlockUndo(Worn(v, lost), txs, height), BlockUndo(v, txs, height))
    decreases |txs|
  {
    hide Worn, SpendAll, ApplyTx, CanSpendAll, UndosOf;
    if txs == [] {
      assert lost - Created(txs) == lost;
    } else {
      var tx := txs[0];
      SpendAllWorn(v, Inputs(tx), lost);
      if CanSpendAll(v, Inputs(tx)) {
        ApplyWorn(v, tx, height, lost);
        var v1 := ApplyTx(v, tx, height);
        ConnectWorn(v1, txs[1..], height, lost - {tx.txid});
        assert Created(txs) == {tx.txid} + Created(txs[1..]) by { assert txs == [tx] + txs[1..]; }
        assert lost - {tx.txid} - Created(txs[1..]) == lost - Created(txs);
      }
    }
  }

  lemma ApplyWorn(v: View, tx: Tx, height: int, lost: set<TxId>)
    requires CanSpendAll(v, Inputs(tx)) && CanSpendAll(Worn(v, lost), Inputs(tx))
    requires SpendAll(Worn(v, lost), Inputs(tx)) == Worn(SpendAll(v, Inputs(tx)), lost)
    ensures ApplyTx(Worn(v, lost), tx, height) == Worn(ApplyTx(v, tx, height), lost - {tx.txid})
  {
  }

  lemma {:induction false} UndoAllIgnoresFlag(v: View, vin: seq<OutPoint>, a: seq<TxInUndo>, b: seq<TxInUndo>)
    requires |vin| == |a| && SameButWear(a, b)
    ensures UndoAll(v, vin, AllStored(a)) == UndoAll(v, vin, AllStored(b))
    ensures UndoAllClean(v, vin, AllStored(a)) <==> UndoAllClean(v, vin, AllStored(b))
    ensures FullySpent(vin, a) == FullySpent(vin, b)
  {
    if vin != [] {
      UndoAllIgnoresFlag(v, vin[1..], a[1..], b[1..]);
      assert AllStored(a)[1..] == AllStored(a[1..]) && AllStored(b)[1..] == AllStored(b[1..]);
      RestoresSame(a[0], b[0]);
      hide UndoSpend, UndoClean, AsStored, Erased;
    }
  }

  lemma RestoresSame(a: TxInUndo, b: TxInUndo)
    requires Erased(a) == Erased(b)
    ensures forall v, out :: UndoSpend(v, out, AsStored(a)) == UndoSpend(v, out, AsStored(b))
    ensures forall v, out :: UndoClean(v, out, AsStored(a)) <==> UndoClean(v, out, AsStored(b))
    ensures a.nHeight == b.nHeight
  {
  }

  lemma {:induction false} UndoTxsIgnoresFlag(v: View, txs: seq<Tx>, a: seq<seq<TxInUndo>>, b: seq<seq<TxInUndo>>, height: int)
    requires Matches(txs, a) && SameBlockUndo(a, b)
    ensures Matches(txs, b) && UndoTxs(v, txs, BlockStored(a)) == UndoTxs(v, txs, BlockStored(b))
    ensures UndoTxsClean(v, txs, BlockStored(a), height) <==> UndoTxsClean(v, txs, BlockStored(b), height)
    ensures FullySpentBlock(txs, a) == FullySpentBlock(txs, b)
  {
    if txs != [] {
      UndoTxsIgnoresFlag(v, txs[1..], a[1..], b[1..], height);
      assert BlockStored(a)[1..] == BlockStored(a[1..]) && BlockStored(b)[1..] == BlockStored(b[1..]);
      UndoAllIgnoresFlag(UndoTxs(v, txs[1..], BlockStored(a[1..])) - {txs[0].txid}, Inputs(txs[0]), a[0], b[0]);
    }
  }

  // ---------- amounts along the chain ----------

  function BlockIn(v: View, txs: seq<Tx>, height: int): int
    requires CanConnect(v, txs, height) && AllHaveInputs(v, txs, height)
    decreases |txs|
  {
    if txs == [] then 0 else ValueIn(v, Inputs(txs[0])) + BlockIn(ApplyTx(v, txs[0], height), txs[1..], height)
  }

  /** Each transaction's inputs are all there when its turn comes: what ConnectBlock checks. */
  predicate AllHaveInputs(v: View, txs: seq<Tx>, height: int)
    requires CanConnect(v, txs, height)
    decreases |txs|
  {
    txs == [] || (HaveInputs(v, txs[0]) && AllHaveInputs(ApplyTx(v, txs[0], height), txs[1..], height))
  }

  function BlockOut(txs: seq<Tx>): int {
    if txs == [] then 0 else ValueOut(txs[0]) + BlockOut(txs[1..])
  }

  /** nFees of ConnectBlock: what ordinary transactions take in and do not pay out. */
  function BlockFees(v: View, txs: seq<Tx>, height: int): int
    requires CanConnect(v, txs, height) && AllHaveInputs(v, txs, height)
    decreases |txs|
  {
    if txs == [] then 0
    else (if txs[0].IsCoinBase() || txs[0].IsCoinStake() then 0 else ValueIn(v, Inputs(txs[0])) - ValueOut(txs[0]))
         + BlockFees(ApplyTx(v, txs[0], height), txs[1..], height)
  }

  function CoinbaseOut(txs: seq<Tx>): int {
    if txs == [] then 0 else (if txs[0].IsCoinBase() then ValueOut(txs[0]) else 0) + CoinbaseOut(txs[1..])
  }

  /** What coinstake transactions pay out beyond what they take in. */
  function StakeSurplus(v: View, txs: seq<Tx>, height: int): int
    requires CanConnect(v, txs, height) && AllHaveInputs(v, txs, height)
    decreases |txs|
  {
    if txs == [] then 0
    else (if txs[0].IsCoinStake() then ValueOut(txs[0]) - ValueIn(v, Inputs(txs[0])) else 0)
         + StakeSurplus(ApplyTx(v, txs[0], height), txs[1..], height)
  }

  /** nMint of a block is what its coinbase pays, plus the surplus of coinstakes, minus the fees. */
  lemma {:induction false} MintSplit(v: View, txs: seq<Tx>, height: int)
    requires CanConnect(v, txs, height) && AllHaveInputs(v, txs, height)
    ensures BlockOut(txs) - BlockIn(v, txs, height)
            == CoinbaseOut(txs) + StakeSurplus(v, txs, height) - BlockFees(v, txs, height)
    decreases |txs|
  {
    if txs != [] {
      MintSplit(ApplyTx(v, txs[0], height), txs[1..], height);
    }
  }

  function BlockDropped(txs: seq<Tx>): int {
    if txs == [] then 0 else Dropped(txs[0].vout) + BlockDropped(txs[1..])
  }

  lemma {:induction false} CanSpendAllNeeds(v: View, vin: seq<OutPoint>)
    requires GoodView(v) && CanSpendAll(v, vin)
    ensures forall out | out in vin :: CanSpend(v, out)
    decreases |vin|
  {
    if vin != [] {
      SpendKeepsGood(v, vin[0]);
      CanSpendAllNeeds(Spend(v, vin[0]), vin[1..]);
      forall out | out in vin ensures CanSpend(v, out) {
        if out != vin[0] {
          assert out in vin[1..];
          SpendMakesNothing(v, vin[0], out);
        }
      }
    }
  }

  lemma SpendMakesNothing(v: View, out: OutPoint, other: OutPoint)
    requires CanSpend(v, out) && CanSpend(Spend(v, out), other)
    ensures CanSpend(v, other)
  {
    var s := v[out.hash].vout[out.n := NULL_OUT];
    if other.hash == out.hash {
      assert Cleaned(Cleaned(s)) <= s;
      assert s[other.n] == Get(Spend(v, out), other.hash).vout[other.n];
    }
  }

  lemma {:induction false} ConnectHasInputs(v: View, txs: seq<Tx>, height: int)
    requires GoodView(v) && height >= 1 && CanConnect(v, txs, height) && forall tx | tx in txs :: Checked(tx)
    ensures AllHaveInputs(v, txs, height)
    decreases |txs|
  {
    if txs != [] {
      CanSpendAllNeeds(v, Inputs(txs[0]));
      ApplyTxGood(v, txs[0], height);
      ConnectHasInputs(ApplyTx(v, txs[0], height), txs[1..], height);
    }
  }

  lemma {:induction false} BlockConserves(v: View, txs: seq<Tx>, height: int)
    requires GoodView(v) && height >= 1 && CanConnect(v, txs, height) && FreshBlock(v, txs, height) && AllHaveInputs(v, txs, height)
    requires forall tx | tx in txs :: Checked(tx)
    ensures Total(ConnectTxs(v, txs, height)) == Total(v) - BlockIn(v, txs, height) + BlockOut(txs) - BlockDropped(txs)
    decreases |txs|
  {
    if txs != [] {
      TotalApplyTx(v, txs[0], height);
      ApplyTxGood(v, txs[0], height);
      BlockConserves(ApplyTx(v, txs[0], height), txs[1..], height);
    }
  }

  /** nMoneySupply of a block index entry (src/main.cpp:2360-2362). */
  function Supply(b: Node): int
    requires Good(b)
  {
    if b == Genesis then 0
    else
      ReplayGood(b.pprev);
      ConnectHasInputs(Replay(b.pprev), b.vtx, Height(b));
      Supply(b.pprev) + BlockOut(b.vtx) - BlockIn(Replay(b.pprev), b.vtx, Height(b))
  }

  function DroppedOnChain(b: Node): int {
    if b == Genesis then 0 else DroppedOnChain(b.pprev) + BlockDropped(b.vtx)
  }

  /** Conservation: on every chain, what is unspent and what was dropped as unspendable add up to the money supply. */
  lemma {:induction false} SupplyConserved(b: Node)
    requires Good(b)
    ensures Total(Replay(b)) + DroppedOnChain(b) == Supply(b)
  {
    if b != Genesis {
      SupplyConserved(b.pprev);
      ReplayGood(b.pprev);
      ConnectHasInputs(Replay(b.pprev), b.vtx, Height(b));
      BlockConserves(Replay(b.pprev), b.vtx, Height(b));
    }
  }
}
