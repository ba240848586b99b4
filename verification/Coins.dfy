/**
 Coins, transactions and undo records as values (src/coins.h:74-286, src/undo.h, src/primitives/transaction.h),
 and the flat map from transaction ids to coins that every coin view stands for.
 */
module Coins {
  import opened Options

  type Byte = b: int | 0 <= b < 256

  type TxId = nat

  const OP_RETURN: Byte := 0x6a

  const MAX_MONEY := 100_000_000_000_000_000
  const MAX_BLOCK_SIZE := 4_000_000

  datatype TxOut = TxOut(nValue: int, script: seq<Byte>, nRounds: int) {
    predicate IsNull() { nValue == -1 }
    predicate IsEmpty() { nValue == 0 && script == [] }
    predicate IsUnspendable() { |script| > 0 && script[0] == OP_RETURN }
  }

  const NULL_OUT := TxOut(-1, [], -10)

  datatype OutPoint = OutPoint(hash: TxId, n: nat) {
    predicate IsNull() { hash == 0 && n == 0xffffffff }
  }

  datatype Tx = Tx(txid: TxId, nVersion: int, vin: seq<OutPoint>, vout: seq<TxOut>) {
    predicate IsCoinBase() { |vin| == 1 && vin[0].IsNull() }
    predicate IsCoinStake() { |vin| > 0 && !vin[0].IsNull() && |vout| >= 2 && vout[0].IsEmpty() }
  }

  /** An output of a block: its memory-only field is that of a new output. */
  predicate GoodOut(o: TxOut) {
    0 <= o.nValue <= MAX_MONEY && |o.script| <= MAX_BLOCK_SIZE && o.nRounds == NULL_OUT.nRounds
  }

  /** CheckTransaction: there are inputs and outputs, sizes are limited, amounts are in money range, only a coinbase or
      coinstake has empty outputs, and inputs are distinct (src/main.cpp:973-1012). */
  predicate Checked(tx: Tx) {
    && tx.vin != [] && tx.vout != []
    && (forall o | o in tx.vout :: GoodOut(o) && (o.IsEmpty() ==> tx.IsCoinBase() || tx.IsCoinStake()))
    && (forall i, j | 0 <= i < j < |tx.vin| :: tx.vin[i] != tx.vin[j])
  }

  datatype CoinsValue = CoinsValue(fCoinBase: bool, fCoinStake: bool, vout: seq<TxOut>, nHeight: int, nVersion: int)

  const NO_COINS := CoinsValue(false, false, [], 0, 0)

  /** Undo data of one spent output; the metadata is only there if it was the last output of its transaction. */
  datatype TxInUndo = TxInUndo(txout: TxOut, fCoinBase: bool, fCoinStake: bool, nHeight: int, nVersion: int)

  predicate AllNull(vout: seq<TxOut>) {
    forall o | o in vout :: o.IsNull()
  }

  /** Drop spent outputs at the end. */
  function Cleaned(vout: seq<TxOut>): (r: seq<TxOut>)
    ensures r <= vout && (r != [] ==> !r[|r| - 1].IsNull())
    ensures forall i | |r| <= i < |vout| :: vout[i].IsNull()
  {
    if vout != [] && vout[|vout| - 1].IsNull() then Cleaned(vout[..|vout| - 1]) else vout
  }

  predicate IsClean(vout: seq<TxOut>) {
    vout != [] ==> !vout[|vout| - 1].IsNull()
  }

  lemma CleanedUnique(vout: seq<TxOut>, r: seq<TxOut>)
    requires r <= vout && IsClean(r) && forall i | |r| <= i < |vout| :: vout[i].IsNull()
    ensures Cleaned(vout) == r
  {
  }

  lemma PrunedIsEmpty(vout: seq<TxOut>)
    ensures AllNull(vout) <==> Cleaned(vout) == []
  {
    if Cleaned(vout) != [] {
      assert Cleaned(vout)[|Cleaned(vout)| - 1] in vout;
    }
  }

  function WithoutUnspendable(vout: seq<TxOut>): (r: seq<TxOut>)
    ensures |r| == |vout|
  {
    seq(|vout|, i requires 0 <= i < |vout| => if vout[i].IsUnspendable() then NULL_OUT else vout[i])
  }

  /** The coins a transaction creates. */
  function FromTx(tx: Tx, height: int): CoinsValue {
    CoinsValue(tx.IsCoinBase(), tx.IsCoinStake(), Cleaned(WithoutUnspendable(tx.vout)), height, tx.nVersion)
  }

  function IsAvailable(vout: seq<TxOut>, n: nat): bool {
    n < |vout| && !vout[n].IsNull()
  }

  // ---------- the flat view ----------

  /** Every entry is unpruned and cleaned; a pruned transaction is absent. */
  type View = map<TxId, CoinsValue>

  ghost predicate GoodCoins(c: CoinsValue) {
    && c.vout != [] && IsClean(c.vout) && c.nHeight >= 1
    && (forall o | o in c.vout :: if o.IsNull() then o == NULL_OUT else GoodOut(o))
  }

  ghost predicate GoodView(v: View) {
    forall h | h in v :: GoodCoins(v[h])
  }

  function Get(v: View, h: TxId): CoinsValue {
    if h in v then v[h] else NO_COINS
  }

  /** What is left of a modification when its modifier is gone: cleaned, and nothing if pruned. */
  function Put(v: View, h: TxId, c: CoinsValue): View {
    if AllNull(c.vout) then v - {h} else v[h := c.(vout := Cleaned(c.vout))]
  }

  // ---------- spending and undoing one output ----------

  predicate CanSpend(v: View, out: OutPoint) {
    IsAvailable(Get(v, out.hash).vout, out.n)
  }

  function SpentCoins(c: CoinsValue, n: nat): CoinsValue
    requires n < |c.vout|
  {
    c.(vout := Cleaned(c.vout[n := NULL_OUT]))
  }

  function Spend(v: View, out: OutPoint): View
    requires CanSpend(v, out)
  {
    Put(v, out.hash, SpentCoins(Get(v, out.hash), out.n))
  }

  function SpendUndo(v: View, out: OutPoint): TxInUndo
    requires CanSpend(v, out)
  {
    var c := Get(v, out.hash);
    if SpentCoins(c, out.n).vout == []
    then TxInUndo(c.vout[out.n], c.fCoinBase, c.fCoinStake, c.nHeight, c.nVersion)
    else TxInUndo(c.vout[out.n], false, false, 0, 0)
  }

  /** vector::resize to at least n + 1 entries, then assignment of entry n. */
  function Restored(vout: seq<TxOut>, n: nat, o: TxOut): (r: seq<TxOut>)
    ensures |r| == if |vout| <= n then n + 1 else |vout|
    ensures forall i | 0 <= i < |r| :: r[i] == if i == n then o else if i < |vout| then vout[i] else NULL_OUT
  {
    (if |vout| <= n then vout + seq(n + 1 - |vout|, _ => NULL_OUT) else vout)[n := o]
  }

  /** A signed number as it is read back from a compact integer: a negative one keeps its last seven bits only. */
  function NumberRead(n: int): int {
    if n < 0 then n % 128 else n
  }

  /** An undo record as it is read back from disk: see module UndoCodec. */
  function AsStored(u: TxInUndo): TxInUndo {
    u.(txout := u.txout.(nRounds := NULL_OUT.nRounds), nVersion := if u.nHeight > 0 then NumberRead(u.nVersion) else 0)
  }

  /** The coins that DisconnectBlock restores an output into: the coinstake flag is not restored. */
  function UndoCoins(c: CoinsValue, n: nat, undo: TxInUndo): CoinsValue {
    var base := if undo.nHeight != 0 then CoinsValue(undo.fCoinBase, false, [], undo.nHeight, undo.nVersion) else c;
    base.(vout := Restored(base.vout, n, undo.txout))
  }

  function UndoSpend(v: View, out: OutPoint, undo: TxInUndo): View {
    Put(v, out.hash, UndoCoins(Get(v, out.hash), out.n, undo))
  }

  /** No complaint of DisconnectBlock about this input. */
  predicate UndoClean(v: View, out: OutPoint, undo: TxInUndo) {
    && (undo.nHeight != 0 <==> AllNull(Get(v, out.hash).vout))
    && !IsAvailable(if undo.nHeight != 0 then [] else Get(v, out.hash).vout, out.n)
  }

  /** Coins that were restored from an undo record: the coinstake flag and the sign of the version are gone. */
  function WornCoins(c: CoinsValue): CoinsValue {
    c.(fCoinStake := false, nVersion := NumberRead(c.nVersion))
  }

  /** A view in which some coins were restored from undo records. */
  function Worn(v: View, lost: set<TxId>): View {
    map h | h in v :: if h in lost then WornCoins(v[h]) else v[h]
  }

  lemma GetWorn(v: View, lost: set<TxId>, h: TxId)
    ensures Get(Worn(v, lost), h) == (if h in lost then WornCoins(Get(v, h)) else Get(v, h))
  {
  }

  lemma SpendKeepsGood(v: View, out: OutPoint)
    requires GoodView(v) && CanSpend(v, out)
    ensures GoodView(Spend(v, out))
  {
    var c := v[out.hash];
    var s := c.vout[out.n := NULL_OUT];
    assert forall o | o in s :: o == NULL_OUT || o in c.vout;
    PrunedIsEmpty(Cleaned(s));
    assert Cleaned(Cleaned(s)) == Cleaned(s);
  }

  lemma UndoCoinsAfterSpend(c: CoinsValue, n: nat, spent: CoinsValue, undo: TxInUndo)
    requires GoodCoins(c) && IsAvailable(c.vout, n)
    requires spent.vout == Cleaned(c.vout[n := NULL_OUT])
    requires spent.vout != [] ==> undo == TxInUndo(c.vout[n], false, false, 0, 0)
                                  && spent == c.(fCoinStake := spent.fCoinStake, nVersion := spent.nVersion, vout := spent.vout)
    requires spent.vout == [] ==> undo == TxInUndo(c.vout[n], c.fCoinBase, c.fCoinStake, c.nHeight, NumberRead(c.nVersion))
    ensures UndoCoins(spent, n, undo) == if spent.vout == [] then WornCoins(c) else c.(fCoinStake := spent.fCoinStake, nVersion := spent.nVersion)
    ensures !IsAvailable(spent.vout, n)
    ensures Cleaned(c.vout) == c.vout && !AllNull(c.vout)
  {
    RestoreAfterSpend(c.vout, n);
    assert c.vout[n] in c.vout;
    if spent.vout == [] {
      assert Restored([], n, undo.txout) == c.vout;
    }
  }

  /** The exact effect of undoing a spend, also on a view that lost flags in between: everything is as before,
      except that a coin that was spent entirely has lost its coinstake flag and the sign of its version. */
  lemma UndoAfterSpend(v: View, out: OutPoint, lost: set<TxId>)
    requires GoodView(v) && CanSpend(v, out)
    ensures UndoClean(Worn(Spend(v, out), lost), out, AsStored(SpendUndo(v, out)))
    ensures UndoSpend(Worn(Spend(v, out), lost), out, AsStored(SpendUndo(v, out)))
            == Worn(v, if SpendUndo(v, out).nHeight != 0 then lost + {out.hash} else lost)
  {
    var c, h, undo := v[out.hash], out.hash, AsStored(SpendUndo(v, out));
    assert c.vout[out.n] in c.vout;
    var s := SpentCoins(c, out.n);
    PrunedIsEmpty(s.vout);
    assert Cleaned(s.vout) == s.vout;
    var v1 := Worn(Spend(v, out), lost);
    var spent := Get(v1, h);
    assert spent == if s.vout == [] then NO_COINS else if h in lost then WornCoins(s) else s;
    UndoCoinsAfterSpend(c, out.n, spent, undo);
    var back := UndoCoins(spent, out.n, undo);
    assert s.vout == [] <==> undo.nHeight != 0;
    assert AllNull(spent.vout) <==> s.vout == [] by { PrunedIsEmpty(spent.vout); }
    hide SpentCoins, UndoCoins, Cleaned, Restored;
    PutBack(v, h, lost, Spend(v, out), back, undo.nHeight != 0);
  }

  lemma PutBack(v: View, h: TxId, lost: set<TxId>, v1: View, back: CoinsValue, last: bool)
    requires h in v && v1 - {h} == v - {h}
    requires back == if last || h in lost then WornCoins(v[h]) else v[h]
    ensures Worn(v1, lost)[h := back] == Worn(v, if last then lost + {h} else lost)
  {
    forall x | x != h && x in v ensures x in v1 && v1[x] == v[x] {
      assert x in v - {h} && (v1 - {h})[x] == (v - {h})[x];
    }
    forall x | x != h && x in v1 ensures x in v {
      assert x in v1 - {h};
    }
  }

  lemma RestoreAfterSpend(vout: seq<TxOut>, n: nat)
    requires IsAvailable(vout, n) && IsClean(vout)
    requires forall o | o in vout :: o.IsNull() ==> o == NULL_OUT
    ensures Restored(Cleaned(vout[n := NULL_OUT]), n, vout[n]) == vout
    ensures !IsAvailable(Cleaned(vout[n := NULL_OUT]), n)
    ensures Cleaned(vout) == vout
  {
    var s := vout[n := NULL_OUT];
    var r := Cleaned(s);
    assert forall i | |r| <= i < |vout| && i != n :: vout[i] == s[i] && vout[i] in vout;
    assert |r| <= n ==> |vout| == n + 1;
  }
}
