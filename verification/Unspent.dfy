/**
 Which outputs a chain leaves unspent, told from its transactions alone (src/main.cpp:1986-2000, src/coins.cpp:35-51):
 those that were made and not spent since. It is what replaying the chain gives.
 */
module Unspent {
  import opened Coins
  import opened BlockCoins
  import opened CoinChain

  /** The transaction makes this output, and it can be spent. */
  predicate Pays(tx: Tx, out: OutPoint) {
    tx.txid == out.hash && out.n < |tx.vout| && !tx.vout[out.n].IsNull() && !tx.vout[out.n].IsUnspendable()
  }

  /** Transaction i makes the output, and none after it spends it or takes its id. */
  predicate MadeLast(txs: seq<Tx>, out: OutPoint, i: int) {
    && 0 <= i < |txs| && Pays(txs[i], out)
    && forall j | i < j < |txs| :: txs[j].txid != out.hash && out !in Inputs(txs[j])
  }

  ghost predicate IsUnspent(txs: seq<Tx>, out: OutPoint) {
    exists i :: MadeLast(txs, out, i)
  }

  lemma UnspentPush(txs: seq<Tx>, tx: Tx, out: OutPoint)
    ensures IsUnspent(txs + [tx], out) <==> if tx.txid == out.hash then Pays(tx, out) else out !in Inputs(tx) && IsUnspent(txs, out)
  {
    hide Pays, Inputs;
    assert forall j | 0 <= j < |txs| :: (txs + [tx])[j] == txs[j];
    var all, n := txs + [tx], |txs|;
    if IsUnspent(all, out) {
      var i :| MadeLast(all, out, i);
      if i < n {
        assert all[n] == tx && all[i] == txs[i];
        assert forall j | i < j < |txs| :: all[j] == txs[j] && txs[j].txid != out.hash && out !in Inputs(txs[j]);
        assert MadeLast(txs, out, i);
      } else {
        assert Pays(tx, out);
        PaysOwn(tx, out);
      }
    }
    if tx.txid == out.hash && Pays(tx, out) {
      assert MadeLast(all, out, n);
    }
    if tx.txid != out.hash && out !in Inputs(tx) && IsUnspent(txs, out) {
      var i :| MadeLast(txs, out, i);
      assert MadeLast(all, out, i);
    }
  }

  lemma PaysOwn(tx: Tx, out: OutPoint)
    ensures Pays(tx, out) ==> tx.txid == out.hash
  {
  }

  /** Spending takes away one output and no other. */
  lemma SpendTakesOne(v: View, out: OutPoint, other: OutPoint)
    requires CanSpend(v, out)
    ensures CanSpend(Spend(v, out), other) <==> other != out && CanSpend(v, other)
  {
    if other != out && CanSpend(v, other) {
      SpendOther(v, out, other);
    }
    if CanSpend(Spend(v, out), other) {
      SpendMakesNothing(v, out, other);
      if other == out {
        SpentIsGone(v, out);
      }
    }
  }

  lemma SpentIsGone(v: View, out: OutPoint)
    requires CanSpend(v, out)
    ensures !CanSpend(Spend(v, out), out)
  {
    var s := v[out.hash].vout[out.n := NULL_OUT];
    assert s[out.n].IsNull() && Cleaned(Cleaned(s)) <= Cleaned(s) <= s;
  }

  lemma {:induction false} SpendAllTakes(v: View, vin: seq<OutPoint>, out: OutPoint)
    requires CanSpendAll(v, vin)
    ensures CanSpend(SpendAll(v, vin), out) <==> out !in vin && CanSpend(v, out)
    decreases |vin|
  {
    hide CanSpend, Spend;
    if vin != [] {
      SpendTakesOne(v, vin[0], out);
      SpendAllTakes(Spend(v, vin[0]), vin[1..], out);
      assert out in vin <==> out == vin[0] || out in vin[1..];
    }
  }

  lemma PutMakes(v: View, tx: Tx, height: int, out: OutPoint)
    ensures CanSpend(Put(v, tx.txid, FromTx(tx, height)), out) <==> if tx.txid == out.hash then Pays(tx, out) else CanSpend(v, out)
  {
    var w := WithoutUnspendable(tx.vout);
    var r := Cleaned(w);
    if tx.txid == out.hash {
      PrunedIsEmpty(r);
      CleanedUnique(r, r);
      assert IsAvailable(r, out.n) <==> IsAvailable(w, out.n);
      assert IsAvailable(w, out.n) <==> Pays(tx, out);
      if Pays(tx, out) {
        assert r[out.n] in r;
      }
    }
  }

  lemma ApplyMakes(v: View, tx: Tx, height: int, out: OutPoint)
    requires CanSpendAll(v, Inputs(tx))
    ensures CanSpend(ApplyTx(v, tx, height), out)
            <==> if tx.txid == out.hash then Pays(tx, out) else out !in Inputs(tx) && CanSpend(v, out)
  {
    SpendAllTakes(v, Inputs(tx), out);
    PutMakes(SpendAll(v, Inputs(tx)), tx, height, out);
  }

  lemma {:induction false} ConnectMakes(v: View, before: seq<Tx>, txs: seq<Tx>, height: int, out: OutPoint)
    requires CanConnect(v, txs, height) && (CanSpend(v, out) <==> IsUnspent(before, out))
    ensures CanSpend(ConnectTxs(v, txs, height), out) <==> IsUnspent(before + txs, out)
    decreases |txs|
  {
    hide CanSpend, IsUnspent, ApplyTx, CanSpendAll, Inputs, Pays;
    if txs == [] {
      assert before + txs == before;
    } else {
      ApplyMakes(v, txs[0], height, out);
      UnspentPush(before, txs[0], out);
      ConnectMakes(ApplyTx(v, txs[0], height), before + [txs[0]], txs[1..], height, out);
      assert before + [txs[0]] + txs[1..] == before + txs;
    }
  }

  /** The transactions of a chain from height 1 on. */
  function AllTxs(b: Node): seq<Tx> {
    if b == Genesis then [] else AllTxs(b.pprev) + b.vtx
  }

  /** Replaying a chain leaves exactly its unspent outputs. */
  lemma {:induction false} ReplayIsUnspent(b: Node, out: OutPoint)
    requires Good(b)
    ensures CanSpend(Replay(b), out) <==> IsUnspent(AllTxs(b), out)
  {
    hide CanSpend, ConnectTxs, CanConnect, FreshBlock, BlockChecked;
    if b == Genesis {
      NothingMade(out);
    } else {
      ReplayIsUnspent(b.pprev, out);
      ConnectMakes(Replay(b.pprev), AllTxs(b.pprev), b.vtx, Height(b), out);
    }
  }

  lemma NothingMade(out: OutPoint)
    ensures !CanSpend(map[], out) && !IsUnspent([], out)
  {
  }

  // ---------- whose coins they are ----------

  predicate OnChain(a: Node, b: Node) {
    a == b || (b != Genesis && OnChain(a, b.pprev))
  }

  /** Coins that this transaction made at this height, some of them spent since. */
  ghost predicate MadeBy(c: CoinsValue, tx: Tx, height: int) {
    && c.fCoinBase == tx.IsCoinBase() && c.fCoinStake == tx.IsCoinStake() && c.nHeight == height && c.nVersion == tx.nVersion
    && forall i | 0 <= i < |c.vout| && !c.vout[i].IsNull() :: i < |tx.vout| && c.vout[i] == tx.vout[i]
  }

  ghost predicate MadeIn(c: CoinsValue, h: TxId, txs: seq<Tx>, height: int) {
    exists tx :: tx in txs && tx.txid == h && MadeBy(c, tx, height)
  }

  /** Some outputs fewer. */
  ghost predicate Reduced(c: CoinsValue, c': CoinsValue) {
    c' == c.(vout := c'.vout) && forall i | 0 <= i < |c'.vout| && !c'.vout[i].IsNull() :: i < |c.vout| && c'.vout[i] == c.vout[i]
  }

  lemma {:induction false} SpendAllReduces(v: View, vin: seq<OutPoint>, h: TxId)
    requires CanSpendAll(v, vin) && h in SpendAll(v, vin)
    ensures h in v && Reduced(v[h], SpendAll(v, vin)[h])
    decreases |vin|
  {
    if vin != [] {
      SpendAllReduces(Spend(v, vin[0]), vin[1..], h);
      SpendReduces(v, vin[0], h);
    }
  }

  lemma SpendReduces(v: View, out: OutPoint, h: TxId)
    requires CanSpend(v, out) && h in Spend(v, out)
    ensures h in v && Reduced(v[h], Spend(v, out)[h])
  {
    if h == out.hash {
      var s := v[h].vout[out.n := NULL_OUT];
      assert Cleaned(Cleaned(s)) <= Cleaned(s) <= s;
    }
  }

  lemma ReducedMade(c: CoinsValue, c': CoinsValue, tx: Tx, height: int)
    requires Reduced(c, c') && MadeBy(c, tx, height)
    ensures MadeBy(c', tx, height)
  {
  }

  lemma NewlyMade(v: View, tx: Tx, height: int)
    requires tx.txid in Put(v, tx.txid, FromTx(tx, height)) && tx.txid !in v
    ensures MadeBy(Put(v, tx.txid, FromTx(tx, height))[tx.txid], tx, height)
  {
    var w := WithoutUnspendable(tx.vout);
    assert Cleaned(Cleaned(w)) <= Cleaned(w) <= w;
  }

  lemma {:induction false} ConnectedMade(v: View, txs: seq<Tx>, height: int, h: TxId)
    requires CanConnect(v, txs, height) && FreshBlock(v, txs, height) && h in ConnectTxs(v, txs, height)
    ensures var c := ConnectTxs(v, txs, height)[h]; (h in v && Reduced(v[h], c)) || MadeIn(c, h, txs, height)
    decreases |txs|
  {
    hide Reduced, MadeBy;
    if txs == [] {
      SameReduced(v[h]);
    } else {
      var tx, c := txs[0], ConnectTxs(v, txs, height)[h];
      var spent, v1 := SpendAll(v, Inputs(tx)), ApplyTx(v, tx, height);
      ConnectedMade(v1, txs[1..], height, h);
      if h in v1 && Reduced(v1[h], c) {
        PutAt(spent, tx.txid, FromTx(tx, height));
        if h == tx.txid {
          NewlyMade(spent, tx, height);
          ReducedMade(v1[h], c, tx, height);
          assert tx in txs && MadeBy(c, tx, height);
        } else {
          SpendAllReduces(v, Inputs(tx), h);
          ReducedTwice(v[h], v1[h], c);
        }
      } else {
        var made :| made in txs[1..] && made.txid == h && MadeBy(c, made, height);
        assert made in txs;
      }
    }
  }

  lemma SameReduced(c: CoinsValue)
    ensures Reduced(c, c)
  {
  }

  lemma ReducedTwice(a: CoinsValue, b: CoinsValue, c: CoinsValue)
    requires Reduced(a, b) && Reduced(b, c)
    ensures Reduced(a, c)
  {
  }

  /** All coins of a chain carry the flags, height and version of the transaction that made them, and its outputs. */
  lemma {:induction false} CoinsAreMade(b: Node, h: TxId)
    requires Good(b) && h in Replay(b)
    ensures exists a :: a != Genesis && OnChain(a, b) && MadeIn(Replay(b)[h], h, a.vtx, Height(a))
  {
    hide MadeBy, Reduced, ConnectTxs, CanConnect, FreshBlock, BlockChecked, MadeIn;
    if b != Genesis {
      var v, c := Replay(b.pprev), Replay(b)[h];
      ConnectedMade(v, b.vtx, Height(b), h);
      if h in v && Reduced(v[h], c) {
        CoinsAreMade(b.pprev, h);
        var a :| a != Genesis && OnChain(a, b.pprev) && MadeIn(v[h], h, a.vtx, Height(a));
        StillMade(v[h], c, h, a.vtx, Height(a));
        assert OnChain(a, b);
      } else {
        assert OnChain(b, b);
      }
    }
  }

  lemma StillMade(c: CoinsValue, c': CoinsValue, h: TxId, txs: seq<Tx>, height: int)
    requires Reduced(c, c') && MadeIn(c, h, txs, height)
    ensures MadeIn(c', h, txs, height)
  {
    hide Reduced, MadeBy;
    var tx :| tx in txs && tx.txid == h && MadeBy(c, tx, height);
    ReducedMade(c, c', tx, height);
  }
}
