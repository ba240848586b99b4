/**
 Amounts: what a view is worth, and how connecting transactions changes that
 (src/coins.cpp:220-230, src/main.cpp:2311-2362).
 */
module Conservation {
  import opened Coins
  import opened BlockCoins

  function Worth(o: TxOut): int {
    if o.IsNull() then 0 else o.nValue
  }

  function Sum(vout: seq<TxOut>): int {
    if vout == [] then 0 else Sum(vout[..|vout| - 1]) + Worth(vout[|vout| - 1])
  }

  /** GetValueOut. */
  function ValueOut(tx: Tx): int {
    Sum(tx.vout)
  }

  /** What FromTx drops: outputs that are provably unspendable. */
  function Dropped(vout: seq<TxOut>): int {
    if vout == [] then 0
    else Dropped(vout[..|vout| - 1]) + if vout[|vout| - 1].IsUnspendable() then Worth(vout[|vout| - 1]) else 0
  }

  /** The unspent value in a view. */
  ghost function Total(v: View): int
    decreases v.Keys
  {
    if v == map[] then 0 else
      var h :| h in v;
      assert (v - {h}).Keys == v.Keys - {h};
      Sum(v[h].vout) + Total(v - {h})
  }

  lemma {:induction false} TotalWithout(v: View, h: TxId)
    requires h in v
    ensures Total(v) == Sum(v[h].vout) + Total(v - {h})
    decreases v.Keys
  {
    var k :| k in v && Total(v) == Sum(v[k].vout) + Total(v - {k});
    if k != h {
      assert (v - {k}).Keys == v.Keys - {k};
      TotalWithout(v - {k}, h);
      assert (v - {h}).Keys == v.Keys - {h};
      TotalWithout(v - {h}, k);
      assert v - {k} - {h} == v - {h} - {k};
    }
  }

  lemma {:induction false} SumUpdate(vout: seq<TxOut>, n: nat, o: TxOut)
    requires n < |vout|
    ensures Sum(vout[n := o]) == Sum(vout) - Worth(vout[n]) + Worth(o)
  {
    var last := |vout| - 1;
    if n < last {
      assert vout[n := o][..last] == vout[..last][n := o];
      SumUpdate(vout[..last], n, o);
    } else {
      assert vout[n := o][..last] == vout[..last];
    }
  }

  lemma {:induction false} SumCleaned(vout: seq<TxOut>)
    ensures Sum(Cleaned(vout)) == Sum(vout)
  {
    if vout != [] && vout[|vout| - 1].IsNull() {
      SumCleaned(vout[..|vout| - 1]);
    }
  }

  lemma {:induction false} SumSpendable(vout: seq<TxOut>)
    ensures Sum(WithoutUnspendable(vout)) == Sum(vout) - Dropped(vout)
  {
    if vout != [] {
      var last := |vout| - 1;
      assert WithoutUnspendable(vout)[..last] == WithoutUnspendable(vout[..last]);
      SumSpendable(vout[..last]);
    }
  }

  lemma TotalPut(v: View, h: TxId, c: CoinsValue)
    ensures Total(Put(v, h, c)) == Total(v) - Sum(Get(v, h).vout) + Sum(c.vout)
  {
    var v' := Put(v, h, c);
    SumCleaned(c.vout);
    PrunedIsEmpty(c.vout);
    if h in v {
      TotalWithout(v, h);
    }
    if h in v' {
      TotalWithout(v', h);
    }
    assert v' - {h} == v - {h};
    assert h !in v ==> v - {h} == v;
    assert h !in v' ==> v' - {h} == v';
  }

  lemma TotalSpend(v: View, out: OutPoint)
    requires CanSpend(v, out)
    ensures Total(Spend(v, out)) == Total(v) - Worth(v[out.hash].vout[out.n])
  {
    var c := v[out.hash];
    TotalPut(v, out.hash, SpentCoins(c, out.n));
    SumUpdate(c.vout, out.n, NULL_OUT);
    SumCleaned(c.vout[out.n := NULL_OUT]);
  }

  /** GetValueIn: the value of the inputs, looked up before any is spent. */
  function ValueIn(v: View, vin: seq<OutPoint>): int
    requires forall out | out in vin :: CanSpend(v, out)
  {
    if vin == [] then 0 else
      assert CanSpend(v, vin[0]);
      Get(v, vin[0].hash).vout[vin[0].n].nValue + ValueIn(v, vin[1..])
  }

  lemma OutputUntouched(v: View, out: OutPoint, other: OutPoint)
    requires CanSpend(v, out) && CanSpend(v, other) && other != out
    ensures CanSpend(Spend(v, out), other)
    ensures Get(Spend(v, out), other.hash).vout[other.n] == Get(v, other.hash).vout[other.n]
  {
    SpendOther(v, out, other);
    assert other.hash != out.hash || v[out.hash].vout[out.n := NULL_OUT][other.n] == v[out.hash].vout[other.n];
  }

  lemma {:induction false} ValueInUntouched(v: View, out: OutPoint, vin: seq<OutPoint>)
    requires CanSpend(v, out) && (forall o | o in vin :: CanSpend(v, o)) && out !in vin
    ensures (forall o | o in vin :: CanSpend(Spend(v, out), o)) && ValueIn(Spend(v, out), vin) == ValueIn(v, vin)
  {
    forall o | o in vin ensures CanSpend(Spend(v, out), o) && Get(Spend(v, out), o.hash).vout[o.n] == Get(v, o.hash).vout[o.n] {
      OutputUntouched(v, out, o);
    }
    if vin != [] {
      ValueInUntouched(v, out, vin[1..]);
    }
  }

  lemma {:induction false} TotalSpendAll(v: View, vin: seq<OutPoint>)
    requires GoodView(v) && forall out | out in vin :: CanSpend(v, out)
    requires forall i, j | 0 <= i < j < |vin| :: vin[i] != vin[j]
    ensures CanSpendAll(v, vin) && Total(SpendAll(v, vin)) == Total(v) - ValueIn(v, vin)
    decreases |vin|
  {
    HaveInputsSuffices(v, vin);
    if vin != [] {
      SpendKeepsGood(v, vin[0]);
      TotalSpend(v, vin[0]);
      ValueInUntouched(v, vin[0], vin[1..]);
      TotalSpendAll(Spend(v, vin[0]), vin[1..]);
    }
  }

  /** Connecting one transaction: what it takes in leaves the view, what it pays out enters, less what is dropped. */
  lemma TotalApplyTx(v: View, tx: Tx, height: int)
    requires GoodView(v) && Checked(tx) && HaveInputs(v, tx) && CanSpendAll(v, Inputs(tx)) && Fresh(v, tx)
    ensures Total(ApplyTx(v, tx, height)) == Total(v) - ValueIn(v, Inputs(tx)) + ValueOut(tx) - Dropped(tx.vout)
  {
    TotalSpendAll(v, Inputs(tx));
    TotalPut(SpendAll(v, Inputs(tx)), tx.txid, FromTx(tx, height));
    SumCleaned(WithoutUnspendable(tx.vout));
    SumSpendable(tx.vout);
  }
}
