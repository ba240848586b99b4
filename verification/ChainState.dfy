/**
 The chain state as src/main.cpp changes it: block arrivals (3016-3131, 3422-3526) and the activation
 of the best chain (1966-1984, 2539-2660, 2750-2945), on the block tree of module BlockTree.

 The tip stands for chainActive: Chain.CChain shows that membership in the vector is being the tip or
 one of its ancestors, and that FindFork is LastCommon.
 */
module ChainState {
  import opened Options
  import opened BlockIndex
  import opened BlockTree

  class CChainState {
    const addr: Block -> int
    const verdict: Block -> Verdict
    /** Whether the k-th disconnection that is tried succeeds: it can fail to read the block or its undo data, to
        apply them, or to write the result. */
    const disconnects: nat -> bool
    var nDisconnects: nat
    var mapBlockIndex: set<Block>
    var data: map<Block, nat>
    var failedValid: set<Block>
    var failedChild: set<Block>
    var nChainTx: map<Block, nat>
    var nSequenceId: map<Block, nat>
    var nBlockSequenceId: nat
    var candidates: set<Block>
    var unlinked: set<(Block, Block)>
    var tip: Block

    ghost function T(): Tree
      reads this
    {
      Tree(addr, verdict, mapBlockIndex, data, failedValid, failedChild, nChainTx, nSequenceId, candidates, unlinked, tip)
    }

    ghost predicate Valid()
      reads this
    {
      T().Inv() && T().Settled() && Numbered(nChainTx, nSequenceId, nBlockSequenceId) && FirstSeen(candidates, tip)
    }

    /** The state after genesis was connected. */
    constructor (addr: Block -> int, verdict: Block -> Verdict, disconnects: nat -> bool, nTxGenesis: nat)
      requires nTxGenesis >= 1
      ensures Valid() && mapBlockIndex == {Genesis} && tip == Genesis
    {
      this.addr := addr;
      this.verdict := verdict;
      this.disconnects := disconnects;
      nDisconnects := 0;
      mapBlockIndex := {Genesis};
      data := map[Genesis := nTxGenesis];
      failedValid, failedChild := {}, {};
      nChainTx := map[Genesis := nTxGenesis];
      nSequenceId := map[Genesis := 1];
      nBlockSequenceId := 2;
      candidates := {Genesis};
      unlinked := {};
      tip := Genesis;
    }

    // ---------- arrivals ----------

    /** A header is added below a known parent that is not marked failed. `contextual` is the outcome of
        CheckBlockHeader and ContextualCheckBlockHeader. */
    method AcceptBlockHeader(b: Block, contextual: bool) returns (ok: bool)
      requires Valid()
      requires b !in mapBlockIndex ==> b.Block? && (contextual ==> b.proof >= 1) && forall a | a in mapBlockIndex :: addr(a) != addr(b)
      modifies this
      ensures Valid() && tip == old(tip) && data == old(data) && failedValid == old(failedValid) && failedChild == old(failedChild)
      ensures ok <==> (if b in old(mapBlockIndex) then !old(T()).Failed(b) else b.pprev in old(mapBlockIndex) && !old(T()).Failed(b.pprev) && contextual)
      ensures mapBlockIndex == old(mapBlockIndex) + if ok then {b} else {}
    {
      hide Numbered, FirstSeen, Tree.Core, Tree.Waiting, Tree.Settled;
      GenesisClean(T());
      if b in mapBlockIndex {
        return b !in failedValid && b !in failedChild;
      }
      if b.pprev !in mapBlockIndex || b.pprev in failedValid || b.pprev in failedChild {
        return false;
      }
      if !contextual {
        return false;
      }
      ghost var t := T();
      HeaderNumbered(nChainTx, nSequenceId, nBlockSequenceId, b);
      mapBlockIndex := mapBlockIndex + {b};
      nChainTx := nChainTx[b := 0];
      nSequenceId := nSequenceId[b := 0];
      HeaderAdded(t, T(), b);
      return true;
    }

    /** A block arrives: its header is accepted, a block that fails CheckBlock is marked, any other is stored.
        The flags are the outcomes of CheckWork, of the header checks and of CheckBlock. */
    method AcceptBlock(b: Block, nTx: nat, checkWork: bool, contextual: bool, checkBlock: bool) returns (ok: bool)
      requires Valid() && nTx >= 1
      requires b !in mapBlockIndex ==> b.Block? && (checkWork ==> b.proof >= 1) && forall a | a in mapBlockIndex :: addr(a) != addr(b)
      modifies this
      ensures Valid() && tip == old(tip)
      ensures ok <==> (b == Genesis || (b.pprev in old(mapBlockIndex) && !old(T()).Failed(b.pprev)))
                      && (b == Genesis || checkWork)
                      && (if b in old(mapBlockIndex) then !old(T()).Failed(b) else contextual) && (b in old(data) || checkBlock)
      ensures var header := (b == Genesis || (b.pprev in old(mapBlockIndex) && !old(T()).Failed(b.pprev))) && (b == Genesis || checkWork)
                            && (if b in old(mapBlockIndex) then !old(T()).Failed(b) else contextual);
              && mapBlockIndex == old(mapBlockIndex) + (if header then {b} else {})
              && data == (if header && b !in old(data) && checkBlock then old(data)[b := nTx] else old(data))
              && failedValid == old(failedValid) + (if header && b !in old(data) && !checkBlock then {b} else {})
      ensures failedChild == old(failedChild)
    {
      hide Numbered, FirstSeen, Tree.Core, Tree.Waiting, Tree.Settled;
      GenesisClean(T());
      if b != Genesis && (b.pprev !in mapBlockIndex || b.pprev in failedValid || b.pprev in failedChild) {
        return false;
      }
      if b != Genesis && !checkWork {
        return false;
      }
      var header := AcceptBlockHeader(b, contextual);
      if !header {
        return false;
      }
      if b in data {
        return true;
      }
      if !checkBlock {
        ghost var t := T();
        failedValid := failedValid + {b};
        MarkedFailed(t, T(), b);
        return false;
      }
      ReceivedBlockTransactions(b, nTx);
      return true;
    }

    /** Store the data of a block; if its parent is linked, link it and, breadth first, everything that waited for it. */
    method ReceivedBlockTransactions(b: Block, nTx: nat)
      requires Valid() && nTx >= 1 && b in mapBlockIndex && b !in data && b !in failedValid
      modifies this`data, this`nChainTx, this`nSequenceId, this`nBlockSequenceId, this`candidates, this`unlinked
      ensures Valid() && data == old(data)[b := nTx]
    {
      hide Numbered, FirstSeen, Tree.Core, Tree.Waiting, Tree.Settled;
      GenesisClean(T());
      ghost var t := T();
      data := data[b := nTx];
      ghost var t1 := T();
      DataStored(t, t1, b, nTx);
      if nChainTx[b.pprev] > 0 {
        Relink(b);
      } else {
        if b.pprev !in failedValid && b.pprev !in failedChild {
          assert (b.pprev, b) !in unlinked by { assert (b.pprev, b).1 == b; }
          unlinked := unlinked + {(b.pprev, b)};
        }
        DataDeferred(t1, T(), b);
      }
    }

    method Relink(b: Block)
      requires T().Core() && T().Settled() && T().Waiting({b})
      requires b in data && b != Genesis && !T().Linked(b) && T().Linked(b.pprev)
      requires Numbered(nChainTx, nSequenceId, nBlockSequenceId) && FirstSeen(candidates, tip)
      modifies this`nChainTx, this`nSequenceId, this`nBlockSequenceId, this`candidates, this`unlinked
      ensures Valid()
    {
      hide Numbered, FirstSeen, Tree.Core, Tree.Settled, Tree.Waiting, QueueOk, LinkOne, Elements;
      QueueOne(T(), b);
      var queue := [b];
      while queue != []
        invariant T().Core() && T().Settled() && T().Waiting(Elements(queue)) && QueueOk(T(), queue)
        invariant Numbered(nChainTx, nSequenceId, nBlockSequenceId) && FirstSeen(candidates, tip)
        decreases |queue| + |unlinked|
      {
        ghost var t, id := T(), nBlockSequenceId;
        QueueHead(t, queue);
        LinkOneNumbered(t, queue[0], id);
        var children := LinkNext(queue[0]);
        RelinkStep(t, queue, children, id);
        queue := queue[1..] + children;
      }
      QueueEmpty(T());
    }

    /** Link one block below its linked parent. */
    method LinkItself(b: Block)
      requires b in data && b != Genesis && b.pprev in nChainTx
      modifies this`nChainTx, this`nSequenceId, this`nBlockSequenceId, this`candidates
      ensures T() == LinkOne(old(T()), b, old(nBlockSequenceId)).(unlinked := unlinked) && nBlockSequenceId == old(nBlockSequenceId) + 1
    {
      hide Before;
      nChainTx := nChainTx[b := nChainTx[b.pprev] + data[b]];
      nSequenceId := nSequenceId[b := nBlockSequenceId];
      nBlockSequenceId := nBlockSequenceId + 1;
      if !Before(nSequenceId, addr, b, tip) {
        candidates := candidates + {b};
      }
    }

    /** Link one block below its linked parent, and take what waited for it out of mapBlocksUnlinked. */
    method LinkNext(b: Block) returns (children: seq<Block>)
      requires b in data && b != Genesis && b.pprev in nChainTx
      modifies this`nChainTx, this`nSequenceId, this`nBlockSequenceId, this`candidates, this`unlinked
      ensures T() == LinkOne(old(T()), b, old(nBlockSequenceId)) && nBlockSequenceId == old(nBlockSequenceId) + 1
      ensures forall c :: c in children <==> (b, c) in old(unlinked)
      ensures forall i, j | 0 <= i < j < |children| :: children[i] != children[j]
      ensures |children| + |unlinked| == old(|unlinked|)
    {
      hide Before;
      LinkItself(b);
      children := TakeRange(b);
    }

    /** Take the entries keyed by b out of mapBlocksUnlinked. */
    method TakeRange(b: Block) returns (children: seq<Block>)
      modifies this`unlinked
      ensures unlinked == set e | e in old(unlinked) && e.0 != b
      ensures forall c :: c in children <==> (b, c) in old(unlinked)
      ensures forall i, j | 0 <= i < j < |children| :: children[i] != children[j]
      ensures |children| + |unlinked| == old(|unlinked|)
    {
      KeySplit(unlinked, b);
      var range := set e | e in unlinked && e.0 == b;
      children := Listed(range, b);
      unlinked := unlinked - range;
    }

    // ---------- activation of the best chain ----------

    /** Walk down from a candidate to the active chain, looking for a failed block. Missing data is not
        looked for: the assertion says that every block of the walk has its data. */
    method FindFailed(b: Block) returns (bad: Option<Block>)
      requires T().Inv() && b in mapBlockIndex && T().Linked(b)
      ensures bad == None ==> T().Clean(b)
      ensures bad.Some? ==> IsAncestor(bad.value, b) && T().Failed(bad.value)
    {
      hide Tree.Inv, Tree.Clean, Ancestor;
      ghost var t := T();
      SelfAncestor(b);
      NothingAbove(b);
      var pindexTest := b;
      while !IsAncestor(pindexTest, tip)
        invariant IsAncestor(pindexTest, b)
        invariant forall a | AboveOnPath(a, b, pindexTest) :: !t.Failed(a)
        decreases Height(pindexTest)
      {
        PathHasData(t, pindexTest, b);
        assert pindexTest in data && nChainTx[pindexTest] > 0;
        if pindexTest in failedValid || pindexTest in failedChild {
          return Some(pindexTest);
        }
        WalkDown(pindexTest, b, tip);
        OneMoreAbove(pindexTest, b, Genesis);
        pindexTest := pindexTest.pprev;
      }
      TipClean(t);
      CleanFromActive(t, pindexTest, b);
      return None;
    }

    /** Mark everything above a failed block on the way to a candidate, and take it all out of the candidates. */
    method RemoveChain(b: Block, bad: Block)
      requires IsAncestor(bad, b)
      modifies this`failedChild, this`candidates
      ensures forall x :: x in failedChild <==> x in old(failedChild) || (IsAncestor(x, b) && IsAncestor(bad, x) && x != bad)
      ensures forall x :: x in candidates <==> x in old(candidates) && !(IsAncestor(x, b) && IsAncestor(bad, x))
    {
      hide IsAncestor;
      SelfAncestor(bad);
      NothingAbove(b);
      var pindexFailed := b;
      while pindexFailed != bad
        invariant IsAncestor(pindexFailed, b) && IsAncestor(bad, pindexFailed)
        invariant forall x :: x in failedChild <==> x in old(failedChild) || AboveOnPath(x, b, pindexFailed)
        invariant forall x :: x in candidates <==> x in old(candidates) && !AboveOnPath(x, b, pindexFailed)
        decreases Height(pindexFailed)
      {
        failedChild := failedChild + {pindexFailed};
        candidates := candidates - {pindexFailed};
        OneMoreAbove(pindexFailed, b, bad);
        pindexFailed := pindexFailed.pprev;
      }
      candidates := candidates - {bad};
      AboveIsBetween(b, bad);
    }

    /** The greatest candidate without failed ancestor. There always is one: the best tip so far. */
    method FindMostWorkChain(ghost best: Block) returns (r: Block)
      requires Acting(T(), best)
      modifies this`failedChild, this`candidates
      ensures Acting(T(), best) && candidates <= old(candidates) && failedChild >= old(failedChild)
      ensures r in candidates && T().Clean(r) && IsGreatest(T(), r)
      ensures forall x | x in old(candidates) - candidates ::
                exists bad :: IsAncestor(bad, x) && forall y | IsAncestor(bad, y) && IsAncestor(y, x) :: T().Failed(y)
    {
      hide Acting, Tree.Inv, Tree.Clean, Before, IsAncestor;
      while true
        invariant Acting(T(), best) && candidates <= old(candidates) && failedChild >= old(failedChild)
        invariant forall x | x in old(candidates) - candidates :: Branded(failedValid, failedChild, x)
        decreases candidates
      {
        ghost var t := T();
        ghost var greatest := GreatestIs(t, best);
        r :| r in candidates && forall c | c in candidates :: c == r || Before(nSequenceId, addr, c, r);
        var bad := FindFailed(r);
        if bad == None {
          BrandedIs(T(), old(candidates) - candidates);
          return;
        }
        SelfAncestor(r);
        RemoveChain(r, bad.value);
        RemovedBranded(t, T(), r, bad.value);
        AllInIndex(t, best, r, failedChild);
        ChainRemoved(t, T(), best, bad.value);
      }
    }

    /** Delete the candidates that are worse than the tip, worst first. */
    method PruneBlockIndexCandidates(ghost keep: Block)
      requires T().TreeOk() && candidates <= mapBlockIndex && tip in mapBlockIndex
      requires keep in candidates && !T().Worse(keep, tip)
      modifies this`candidates
      ensures candidates == set c | c in old(candidates) && !T().Worse(c, tip)
      ensures candidates != {}
    {
      while candidates != {}
        invariant candidates <= old(candidates) && keep in candidates
        invariant forall c | c in old(candidates) - candidates :: Before(nSequenceId, addr, c, tip)
        decreases candidates
      {
        ghost var least := LeastExists(T(), candidates);
        var it :| it in candidates && forall c | c in candidates :: c == it || Before(nSequenceId, addr, it, c);
        if !Before(nSequenceId, addr, it, tip) {
          forall c | c in candidates ensures !T().Worse(c, tip) {
            WorseIsStrictOrder(T(), it, c, tip);
          }
          break;
        }
        candidates := candidates - {it};
      }
    }

    /** The disconnections since the given number all succeeded; or all but the last one, which failed. */
    ghost predicate Undone(since: nat, all: bool)
      reads this`nDisconnects
    {
      && since <= nDisconnects && (!all ==> since < nDisconnects)
      && forall k | since <= k < nDisconnects :: disconnects(k) == (all || k < nDisconnects - 1)
    }

    /** The tip becomes its parent, or the disconnection fails and leaves it alone. */
    method DisconnectTip(ghost best: Block) returns (ok: bool)
      requires Acting(T(), best) && tip != Genesis
      modifies this`tip, this`nDisconnects
      ensures Acting(T(), best) && nDisconnects == old(nDisconnects) + 1
      ensures ok == disconnects(old(nDisconnects)) && tip == if ok then old(tip).pprev else old(tip)
    {
      ghost var t := T();
      ok := disconnects(nDisconnects);
      nDisconnects := nDisconnects + 1;
      if ok {
        tip := tip.pprev;
        TipDisconnected(t, T(), best);
      }
    }

    /** Run ConnectBlock on the next block of the path. A rejected block is marked and is no candidate any more. */
    method ConnectTip(b: Block, ghost best: Block) returns (v: Verdict)
      requires Acting(T(), best) && b in mapBlockIndex && b != Genesis && b.pprev == tip
      modifies this`tip, this`failedValid, this`candidates
      ensures v == verdict(b) && candidates <= old(candidates)
      ensures v == Accept ==> T() == old(T()).(tip := b)
      ensures v == Reject ==> Acting(T(), best) && failedValid == old(failedValid) + {b} && tip == old(tip)
      ensures v == SystemError ==> T() == old(T())
    {
      ghost var t := T();
      v := verdict(b);
      if v == Accept {
        tip := b;
      } else if v == Reject {
        failedValid := failedValid + {b};
        candidates := candidates - {b};
        TipRejected(t, T(), best, b);
      }
    }

    /** One block up the path to mostWork: connect it and prune, or find out that it is invalid. */
    method ClimbOne(b: Block, mostWork: Block, ghost best0: Block, ghost best: Block) returns (v: Verdict, ghost best': Block)
      requires Climbing(T(), mostWork, best0, best) && T().Clean(mostWork)
      requires b != Genesis && b.pprev == tip && IsAncestor(b, mostWork)
      modifies this`tip, this`failedValid, this`candidates
      ensures v == Accept ==> Climbing(T(), mostWork, best0, best') && T().Clean(mostWork) && tip == b && failedValid == old(failedValid)
      ensures v == Reject ==> Acting(T(), best') && best' == best && failedValid > old(failedValid) && tip != mostWork
      ensures v == SystemError ==> T() == old(T()) && verdict(b) == SystemError
      ensures T().Inv() && candidates <= old(candidates)
    {
      best' := best;
      ghost var t := T();
      InIndex(t, b, mostWork);
      LinkedBelow(t, b, mostWork);
      v := ConnectTip(b, best);
      if v == Accept {
        WorseIsStrictOrder(t, mostWork, mostWork, mostWork);
        PruneBlockIndexCandidates(mostWork);
        TipConnected(t, T(), best, b);
        best' := BetterOf(t, best, b);
        WorseIsStrictOrder(t, best0, best, best');
      } else if v == Reject {
        assert IsAncestor(b, mostWork) && !t.Failed(b);
      }
    }

    /** Disconnect the active blocks above the fork, as long as that succeeds. */
    method DisconnectToFork(fork: Block, ghost best: Block) returns (ok: bool)
      requires Acting(T(), best) && IsAncestor(fork, tip)
      modifies this`tip, this`nDisconnects
      ensures Acting(T(), best) && IsAncestor(fork, tip) && IsAncestor(tip, old(tip))
      ensures (ok <==> tip == fork) && Undone(old(nDisconnects), ok)
    {
      hide Acting, Height, Ancestor;
      ghost var tip0 := tip;
      SelfAncestor(tip);
      while tip != fork
        invariant Acting(T(), best) && IsAncestor(fork, tip) && IsAncestor(tip, tip0) && Undone(old(nDisconnects), true)
        decreases Height(tip)
      {
        ParentBetween(fork, tip, tip0);
        var done := DisconnectTip(best);
        if !done {
          return false;
        }
      }
      ok := true;
    }

    /** Connect a stretch of the path to mostWork, in ascending order. It ends early at a tip with more work
        than minWork, at an invalid block (Reject), or on a system error. */
    method ConnectStretch(v: seq<Block>, mostWork: Block, minWork: nat, ghost best0: Block, ghost best: Block)
      returns (r: Verdict, ghost best': Block)
      requires Climbing(T(), mostWork, best0, best) && T().Clean(mostWork)
      requires Height(tip) + |v| <= Height(mostWork)
      requires forall k | 0 <= k < |v| :: v[k] == Ancestor(mostWork, Height(tip) + |v| - k)
      modifies this`tip, this`failedValid, this`candidates
      ensures T().Inv() && candidates <= old(candidates)
      ensures r == Accept ==> Climbing(T(), mostWork, best0, best') && T().Clean(mostWork) && failedValid == old(failedValid)
      ensures r == Accept ==> Height(tip) == old(Height(tip)) + |v| || Work(tip) > minWork
      ensures r == Reject ==> Acting(T(), best') && AtLeast(T(), best', best0) && failedValid > old(failedValid) && tip != mostWork
      ensures r == SystemError ==> Stuck(T(), mostWork) && Blocked(T(), mostWork)
    {
      hide Acting, Tree.Inv;
      r, best' := Accept, best;
      var i := |v|;
      while i > 0
        invariant 0 <= i <= |v| && r == Accept && candidates <= old(candidates)
        invariant Climbing(T(), mostWork, best0, best') && T().Clean(mostWork) && failedValid == old(failedValid)
        invariant Height(tip) == old(Height(tip)) + |v| - i
      {
        i := i - 1;
        StepDown(mostWork, Height(tip) + 1);
        r, best' := ClimbOne(v[i], mostWork, best0, best');
        if r != Accept || Work(tip) > minWork {
          return;
        }
      }
      ActingInv(T(), best');
    }

    /** Go to the fork, then up towards mostWork until the tip has more work than before, a block fails,
        or mostWork is reached. False means that a disconnection failed, or the next block met a system error. */
    method ActivateBestChainStep(mostWork: Block, ghost best: Block) returns (ok: bool, ghost best': Block)
      requires Climbable(T(), mostWork, best)
      modifies this`tip, this`failedValid, this`candidates, this`nDisconnects
      ensures T().Inv() && candidates <= old(candidates)
      ensures !ok ==> Stuck(T(), mostWork) && Undone(old(nDisconnects), IsAncestor(tip, mostWork))
      ensures ok ==> Undone(old(nDisconnects), true)
      ensures ok ==> Acting(T(), best') && AtLeast(T(), best', best)
      ensures ok && tip == mostWork ==> IsGreatest(T(), mostWork)
      ensures ok && tip != mostWork ==> failedValid > old(failedValid) || (failedValid == old(failedValid) && Work(tip) > Work(old(tip)))
    {
      hide Acting, Tree.Inv, LastCommon, Before, Work;
      ActingInv(T(), best);
      var pindexOldTip := tip;
      var pindexFork := LastCommon(mostWork, tip);
      LastCommonIsLast(mostWork, tip, pindexFork);
      best' := best;
      ok := DisconnectToFork(pindexFork, best);
      if !ok {
        ActingInv(T(), best);
        AboveFork(mostWork, old(tip), pindexFork, tip);
        return;
      }
      while tip != mostWork
        invariant Climbing(T(), mostWork, best, best') && T().Clean(mostWork) && failedValid == old(failedValid)
        invariant Undone(old(nDisconnects), true) && candidates <= old(candidates)
        decreases Height(mostWork) - Height(tip)
      {
        var nHeight := Height(tip);
        var nTargetHeight := if nHeight + 32 < Height(mostWork) then nHeight + 32 else Height(mostWork);
        var vpindexToConnect := BlocksToConnect(mostWork, nHeight, nTargetHeight);
        var r;
        r, best' := ConnectStretch(vpindexToConnect, mostWork, Work(pindexOldTip), best, best');
        if r == SystemError {
          return false, best';
        }
        ActingInv(T(), best');
        if r == Reject || Work(tip) > Work(pindexOldTip) {
          return true, best';
        }
      }
      ActingInv(T(), best');
      return true, best';
    }

    /** One round of the loop of ActivateBestChain: done means that it returns, with `ok`. */
    method ActivateRound(ghost best: Block, ghost tip0: Block) returns (done: bool, ok: bool, ghost mostWork: Block, ghost best': Block)
      requires Acting(T(), best) && AtLeast(T(), best, tip0)
      modifies this`tip, this`failedValid, this`failedChild, this`candidates, this`nDisconnects
      ensures T().Inv() && candidates <= old(candidates)
      ensures !ok ==> done && Stuck(T(), mostWork) && Undone(old(nDisconnects), IsAncestor(tip, mostWork))
      ensures ok ==> Undone(old(nDisconnects), true)
      ensures done && ok ==> Succeeded(T(), tip0)
      ensures !done ==> Acting(T(), best') && AtLeast(T(), best', tip0)
      ensures !done ==> old(failedValid) < failedValid <= mapBlockIndex
                        || (failedValid == old(failedValid) && Work(tip) > Work(old(tip)))
    {
      hide Acting, Tree.Inv, Tree.Clean, Tree.Settled, IsGreatest, Before, Work, Succeeded, Stuck, IsAncestor;
      ActingInv(T(), best);
      var pindexMostWork := FindMostWorkChain(best);
      mostWork := pindexMostWork;
      ActingInv(T(), best);
      if pindexMostWork == tip {
        Finished(T(), best, tip0);
        return true, true, mostWork, best;
      }
      ok, best' := ActivateBestChainStep(pindexMostWork, best);
      done := !ok;
      if ok {
        ActingInv(T(), best');
        StillAtLeast(T(), best', best, tip0);
        if pindexMostWork == tip {
          Finished(T(), best', tip0);
          done := true;
        }
      }
    }

    /** The rounds of ActivateBestChain. They always end: each either finds an invalid block or gives the tip more work. */
    method ActivateRounds() returns (ok: bool, ghost mostWork: Block)
      requires Valid()
      modifies this`tip, this`failedValid, this`failedChild, this`candidates, this`nDisconnects
      ensures T().Inv() && candidates <= old(candidates)
      ensures ok ==> Succeeded(T(), old(tip)) && Undone(old(nDisconnects), true)
      ensures !ok ==> Stuck(T(), mostWork) && Undone(old(nDisconnects), IsAncestor(tip, mostWork))
    {
      ghost var best := tip;
      StartActing(T());
      hide Acting, Tree.Inv, Tree.Clean, Tree.Settled, IsGreatest, AtLeast, Stuck, Succeeded, Numbered, FirstSeen, Above, IsAncestor, Work;
      mostWork := tip;
      var done := false;
      ok := true;
      while !done
        invariant T().Inv() && (done && ok ==> Succeeded(T(), old(tip)))
        invariant ok ==> Undone(old(nDisconnects), true)
        invariant candidates <= old(candidates)
        invariant !ok ==> done && Stuck(T(), mostWork) && Undone(old(nDisconnects), IsAncestor(tip, mostWork))
        invariant !done ==> Acting(T(), best) && AtLeast(T(), best, old(tip))
        decreases !done, mapBlockIndex - failedValid, Above(mapBlockIndex, tip)
      {
        ghost var tip1 := tip;
        done, ok, mostWork, best := ActivateRound(best, old(tip));
        if !done {
          TipAbove(T(), best, tip1);
        }
      }
    }

    /** Make the best chain active. On success the tip is the only candidate, has no failed ancestor and is the old tip
        or has more work than that, and the candidate rule of CheckBlockIndex holds again; FindMostWorkChain never
        returns NULL, and ConnectTip is only called on a child of the tip. It fails only on the way to the greatest
        candidate: at a disconnection that failed, or at a block whose connection met a system error. */
    method ActivateBestChain() returns (ok: bool, ghost mostWork: Block)
      requires Valid()
      modifies this`tip, this`failedValid, this`failedChild, this`candidates, this`nDisconnects
      ensures T().Inv() && candidates <= old(candidates)
      ensures ok ==> Valid() && Succeeded(T(), old(tip)) && Undone(old(nDisconnects), true)
      ensures ok ==> tip == old(tip) || Work(tip) > Work(old(tip))
      ensures !ok ==> Stuck(T(), mostWork) && Undone(old(nDisconnects), IsAncestor(tip, mostWork))
      ensures (forall b | b in mapBlockIndex :: verdict(b) != SystemError) && (forall k :: disconnects(k)) ==> ok
    {
      hide Tree.Inv, Tree.Settled, Stuck, Succeeded, Numbered, FirstSeen, IsAncestor, Work, Undone;
      ok, mostWork := ActivateRounds();
      if ok {
        SucceededSettled(T(), old(tip));
        StillFirst(old(candidates), old(tip), candidates, tip);
      } else {
        WhyStuck(old(nDisconnects), mostWork);
      }
    }

    /** Either a block meets a system error or a disconnection failed. */
    lemma WhyStuck(since: nat, mostWork: Block)
      requires T().Inv() && Stuck(T(), mostWork) && Undone(since, IsAncestor(tip, mostWork))
      ensures (exists b :: b in mapBlockIndex && verdict(b) == SystemError) || exists k :: !disconnects(k)
    {
      if IsAncestor(tip, mostWork) {
        StuckIs(T(), mostWork);
      } else {
        assert !disconnects(nDisconnects - 1);
      }
    }

    /** A block arrives from a peer or a miner: it is accepted, then the best chain is made active. The tip changes only
        for more work than it had. */
    method ProcessNewBlock(b: Block, nTx: nat, checkWork: bool, contextual: bool, checkBlock: bool, checkSignature: bool) returns (ok: bool)
      requires Valid() && nTx >= 1
      requires b !in mapBlockIndex ==> b.Block? && (checkWork ==> b.proof >= 1) && forall a | a in mapBlockIndex :: addr(a) != addr(b)
      modifies this
      ensures T().Inv()
      ensures ok ==> Valid() && Succeeded(T(), old(tip)) && (tip == old(tip) || Work(tip) > Work(old(tip)))
      ensures ok ==> checkBlock && checkSignature && b in mapBlockIndex && b in data
      ensures !(checkBlock && checkSignature) ==> !ok && T() == old(T())
    {
      hide Numbered, FirstSeen, Tree.Core, Tree.Waiting, Tree.Settled, Succeeded, Stuck;
      if !checkSignature || !checkBlock {
        return false;
      }
      if b != Genesis && b.pprev !in mapBlockIndex {
        return false;
      }
      ok := AcceptBlock(b, nTx, checkWork, contextual, checkBlock);
      if ok {
        ghost var mostWork;
        ok, mostWork := ActivateBestChain();
      }
    }
  }

  /** The blocks of the path to mostWork with heights in (low, high], highest first. */
  method BlocksToConnect(mostWork: Block, low: nat, high: nat) returns (v: seq<Block>)
    requires low <= high <= Height(mostWork)
    ensures |v| == high - low && forall i | 0 <= i < |v| :: v[i] == Ancestor(mostWork, high - i)
  {
    var pindexIter := Ancestor(mostWork, high);
    v := [];
    while Height(pindexIter) != low
      invariant low <= Height(pindexIter) == high - |v| && pindexIter == Ancestor(mostWork, high - |v|)
      invariant forall i | 0 <= i < |v| :: v[i] == Ancestor(mostWork, high - i)
      decreases Height(pindexIter)
    {
      v := v + [pindexIter];
      StepDown(mostWork, Height(pindexIter));
      pindexIter := pindexIter.pprev;
    }
  }

  /** A candidate that FindMostWorkChain may return. */
  ghost predicate Climbable(t: Tree, mostWork: Block, best: Block) {
    Acting(t, best) && mostWork in t.candidates && t.Clean(mostWork) && IsGreatest(t, mostWork)
  }

  /** The block after the tip on the way to mostWork meets a system error. */
  ghost predicate Blocked(t: Tree, mostWork: Block) {
    && IsAncestor(t.tip, mostWork) && t.tip != mostWork
    && Height(t.tip) < Height(mostWork) && t.verdict(Ancestor(mostWork, Height(t.tip) + 1)) == SystemError
  }

  /** On the way to the greatest candidate, either off its chain or just below a block that meets a system error. */
  ghost predicate Stuck(t: Tree, mostWork: Block) {
    && mostWork in t.candidates && t.Clean(mostWork) && IsGreatest(t, mostWork)
    && (IsAncestor(t.tip, mostWork) ==> Blocked(t, mostWork))
  }

  ghost predicate AtLeast(t: Tree, b: Block, b0: Block) {
    b0 in t.index && (b == b0 || t.Worse(b0, b))
  }

  /** On the way up to mostWork, below or at it, with best no worse than when the step began. */
  ghost predicate Climbing(t: Tree, mostWork: Block, best0: Block, best: Block) {
    && Acting(t, best) && mostWork in t.candidates && IsGreatest(t, mostWork) && IsAncestor(t.tip, mostWork)
    && AtLeast(t, best, best0)
  }

  lemma ActingInv(t: Tree, best: Block)
    requires Acting(t, best)
    ensures t.Inv() && t.failedValid <= t.index && best in t.index
  {
  }

  lemma TipAbove(t: Tree, best: Block, tip1: Block)
    requires Acting(t, best)
    ensures Work(t.tip) > Work(tip1) ==> Above(t.index, t.tip) < Above(t.index, tip1)
  {
    assert Work(t.tip) > Work(tip1) ==> t.tip in Above(t.index, tip1);
  }

  lemma SelfAncestor(b: Block)
    ensures IsAncestor(b, b)
  {
  }

  lemma QueueOne(t: Tree, b: Block)
    requires b in t.data && b != Genesis && !t.Linked(b) && t.Linked(b.pprev)
    ensures Elements([b]) == {b} && QueueOk(t, [b])
  {
  }

  lemma QueueHead(t: Tree, queue: seq<Block>)
    requires queue != [] && QueueOk(t, queue)
    ensures var b := queue[0];
            b in t.data && b != Genesis && !t.Linked(b) && t.Linked(b.pprev) && b.pprev in t.nChainTx
  {
    assert queue[0] in queue;
  }

  lemma QueueEmpty(t: Tree)
    requires t.Core() && t.Settled() && t.Waiting(Elements([]))
    ensures t.Inv() && t.Settled()
  {
    assert Elements([]) == {};
  }

  lemma GenesisClean(t: Tree)
    requires t.Inv()
    ensures Genesis in t.index && Genesis in t.data && !t.Failed(Genesis)
    ensures t.failedValid <= t.index && t.failedChild <= t.index
    ensures t.nChainTx.Keys == t.index == t.nSequenceId.Keys && t.data.Keys <= t.index
  {
    ConnectedIsClean(t, t.tip);
    assert IsAncestor(Genesis, t.tip);
    assert SumAt(t.data, t.nChainTx, Genesis);
  }

  lemma PathHasData(t: Tree, a: Block, b: Block)
    requires t.Inv() && b in t.index && t.Linked(b) && IsAncestor(a, b)
    ensures a in t.data && a in t.nChainTx && t.nChainTx[a] > 0
  {
    LinkedBelow(t, a, b);
  }

  lemma TipClean(t: Tree)
    requires t.Inv()
    ensures t.Clean(t.tip)
  {
    ConnectedIsClean(t, t.tip);
  }

  /** On the path to b strictly above a block of that path. */
  predicate AboveOnPath(x: Block, b: Block, low: Block) {
    IsAncestor(x, b) && Height(x) > Height(low)
  }

  lemma NothingAbove(b: Block)
    ensures IsAncestor(b, b) && forall x :: !AboveOnPath(x, b, b)
  {
  }

  lemma OneMoreAbove(low: Block, b: Block, bad: Block)
    requires IsAncestor(low, b) && IsAncestor(bad, low) && low != bad
    ensures low.Block? && IsAncestor(low.pprev, b) && IsAncestor(bad, low.pprev) && Height(low.pprev) < Height(low)
    ensures forall x :: AboveOnPath(x, b, low.pprev) <==> AboveOnPath(x, b, low) || x == low
  {
    ParentBetween(bad, low, b);
    forall x | AboveOnPath(x, b, low.pprev) ensures AboveOnPath(x, b, low) || x == low {
      if Height(x) <= Height(low) {
        SameHeight(x, low, b);
      }
    }
  }

  lemma SameHeight(x: Block, y: Block, b: Block)
    requires IsAncestor(x, b) && IsAncestor(y, b) && Height(x) == Height(y)
    ensures x == y
  {
  }

  lemma AboveIsBetween(b: Block, bad: Block)
    requires IsAncestor(bad, b)
    ensures IsAncestor(bad, bad)
    ensures forall x :: IsAncestor(x, b) && IsAncestor(bad, x) && x != bad <==> AboveOnPath(x, b, bad)
  {
    forall x | AboveOnPath(x, b, bad) ensures IsAncestor(bad, x) {
      AncestorsOrdered(bad, x, b);
    }
  }

  /** Everything from some block on the way to x up to x itself is marked failed. */
  ghost predicate Branded(failedValid: set<Block>, failedChild: set<Block>, x: Block) {
    exists bad :: IsAncestor(bad, x) && forall y | IsAncestor(bad, y) && IsAncestor(y, x) :: y in failedValid || y in failedChild
  }

  lemma RemovedBranded(t: Tree, t': Tree, r: Block, bad: Block)
    requires t.Failed(bad) && t'.failedValid == t.failedValid
    requires forall x :: x in t'.failedChild <==> x in t.failedChild || (IsAncestor(x, r) && IsAncestor(bad, x) && x != bad)
    requires forall x :: x in t'.candidates <==> x in t.candidates && !(IsAncestor(x, r) && IsAncestor(bad, x))
    ensures forall x | x in t.candidates - t'.candidates :: Branded(t'.failedValid, t'.failedChild, x)
    ensures forall x | Branded(t.failedValid, t.failedChild, x) :: Branded(t'.failedValid, t'.failedChild, x)
    ensures t.failedChild <= t'.failedChild && t'.candidates <= t.candidates
  {
    forall x | x in t.candidates - t'.candidates ensures Branded(t'.failedValid, t'.failedChild, x) {
      forall y | IsAncestor(bad, y) && IsAncestor(y, x) ensures t'.Failed(y) {
        AncestorTransitive(y, x, r);
      }
    }
    forall x | Branded(t.failedValid, t.failedChild, x) ensures Branded(t'.failedValid, t'.failedChild, x) {
      var low :| IsAncestor(low, x) && forall y | IsAncestor(low, y) && IsAncestor(y, x) :: y in t.failedValid || y in t.failedChild;
      assert forall y | IsAncestor(low, y) && IsAncestor(y, x) :: y in t'.failedValid || y in t'.failedChild;
    }
  }

  lemma BrandedIs(t: Tree, xs: set<Block>)
    requires forall x | x in xs :: Branded(t.failedValid, t.failedChild, x)
    ensures forall x | x in xs :: exists bad :: IsAncestor(bad, x) && forall y | IsAncestor(bad, y) && IsAncestor(y, x) :: t.Failed(y)
  {
    forall x | x in xs ensures exists bad :: IsAncestor(bad, x) && forall y | IsAncestor(bad, y) && IsAncestor(y, x) :: t.Failed(y) {
      var low :| IsAncestor(low, x) && forall y | IsAncestor(low, y) && IsAncestor(y, x) :: y in t.failedValid || y in t.failedChild;
      assert forall y | IsAncestor(low, y) && IsAncestor(y, x) :: t.Failed(y);
    }
  }

  lemma ParentBetween(fork: Block, tip: Block, tip0: Block)
    requires IsAncestor(fork, tip) && IsAncestor(tip, tip0) && tip != fork
    ensures tip != Genesis && IsAncestor(fork, tip.pprev) && IsAncestor(tip.pprev, tip0) && Height(tip.pprev) < Height(tip)
  {
    AncestorTransitive(tip.pprev, tip, tip0);
  }

  /** What is still connected above the fork is not on the way to mostWork. */
  lemma AboveFork(mostWork: Block, tip0: Block, fork: Block, tip: Block)
    requires fork == LastCommon(mostWork, tip0) && IsAncestor(fork, tip) && IsAncestor(tip, tip0) && tip != fork
    ensures !IsAncestor(tip, mostWork)
  {
    LastCommonIsLast(mostWork, tip0, tip);
  }

  /** A block that meets a system error is in the index. */
  lemma StuckIs(t: Tree, mostWork: Block)
    requires t.Inv() && Stuck(t, mostWork) && IsAncestor(t.tip, mostWork)
    ensures exists b :: b in t.index && t.verdict(b) == SystemError
  {
    var b := Ancestor(mostWork, Height(t.tip) + 1);
    AncestorOfAncestor(mostWork, Height(b), Height(b));
    InIndex(t, b, mostWork);
  }

  lemma SucceededSettled(t: Tree, tip0: Block)
    requires Succeeded(t, tip0)
    ensures t.Inv() && t.Settled() && t.candidates == {t.tip}
  {
  }

  /** The tip changes only for a candidate, and so only for more work. */
  lemma StillFirst(candidates0: set<Block>, tip0: Block, candidates: set<Block>, tip: Block)
    requires FirstSeen(candidates0, tip0) && candidates == {tip} && candidates <= candidates0
    ensures (tip == tip0 || Work(tip) > Work(tip0)) && FirstSeen(candidates, tip)
  {
    assert tip in candidates0;
  }

  lemma GreatestIs(t: Tree, best: Block) returns (greatest: Block)
    requires Acting(t, best)
    ensures t.Inv() && greatest in t.candidates && forall c | c in t.candidates :: c == greatest || t.Worse(c, greatest)
    ensures forall c | c in t.candidates :: c in t.index && t.Linked(c)
  {
    BestIsCandidate(t, best);
    greatest := GreatestExists(t, t.candidates);
  }

  lemma AllInIndex(t: Tree, best: Block, b: Block, failedChild: set<Block>)
    requires Acting(t, best) && b in t.index && forall x | x in failedChild - t.failedChild :: IsAncestor(x, b)
    ensures forall x | x in failedChild - t.failedChild :: x in t.index
  {
    forall x | x in failedChild - t.failedChild ensures x in t.index {
      InIndex(t, x, b);
    }
  }

  lemma StillAtLeast(t: Tree, best: Block, best0: Block, tip0: Block)
    requires Acting(t, best) && AtLeast(t, best, best0) && AtLeast(t, best0, tip0)
    ensures AtLeast(t, best, tip0)
  {
    WorseIsStrictOrder(t, tip0, best0, best);
  }

  lemma StartActing(t: Tree)
    requires t.Inv() && t.Settled()
    ensures Acting(t, t.tip) && AtLeast(t, t.tip, t.tip)
  {
  }

  /** What a successful activation leaves behind. */
  ghost predicate Succeeded(t: Tree, tip0: Block) {
    && t.Inv() && t.Settled()
    && t.Clean(t.tip) && t.candidates == {t.tip}
    && (t.tip == tip0 || t.Worse(tip0, t.tip)) && Work(t.tip) >= Work(tip0)
  }

  /** After a successful activation no block has more work than the tip, and none with the same work was seen before it,
      if the data of its whole path is here and nothing on it is marked failed. */
  lemma TipIsBest(t: Tree, tip0: Block, b: Block, next: nat)
    requires Succeeded(t, tip0) && Numbered(t.nChainTx, t.nSequenceId, next) && b in t.index && t.Clean(b) && AllData(t, b)
    ensures b == t.tip || Work(b) < Work(t.tip)
            || (Work(b) == Work(t.tip) && b in t.nSequenceId && t.tip in t.nSequenceId && t.nSequenceId[t.tip] < t.nSequenceId[b])
  {
    ChainTxExact(t, b);
    WorseIsStrictOrder(t, b, t.tip, b);
    GenesisClean(t);
    hide Tree.Clean, AllData, Work, ChainTx;
  }

  lemma Finished(t: Tree, best: Block, tip0: Block)
    requires Acting(t, best) && IsGreatest(t, t.tip) && AtLeast(t, best, tip0)
    ensures Succeeded(t, tip0)
  {
    BestIsCandidate(t, best);
    WorseIsStrictOrder(t, best, t.tip, best);
    ActingDone(t, best);
    assert forall c | c in t.candidates :: c == t.tip;
  }

  ghost function Above(index: set<Block>, tip: Block): set<Block> {
    set b | b in index && Work(b) > Work(tip)
  }

  ghost predicate IsGreatest(t: Tree, r: Block) {
    forall c | c in t.candidates :: c == r || t.Worse(c, r)
  }

  lemma WalkDown(a: Block, b: Block, other: Block)
    requires IsAncestor(a, b) && !IsAncestor(a, other)
    ensures a.Block? && IsAncestor(a.pprev, b)
  {
    if a != Genesis {
      AncestorTransitive(a.pprev, a, b);
    }
  }

  lemma CleanFromActive(t: Tree, a: Block, b: Block)
    requires t.Clean(t.tip) && IsAncestor(a, t.tip) && IsAncestor(a, b)
    requires forall x | IsAncestor(x, b) && Height(x) > Height(a) :: !t.Failed(x)
    ensures t.Clean(b)
  {
    forall x | IsAncestor(x, b) ensures !t.Failed(x) {
      if Height(x) <= Height(a) {
        AncestorsOrdered(x, a, b);
        AncestorTransitive(x, a, t.tip);
      }
    }
  }

  lemma KeySplit(unlinked: set<(Block, Block)>, b: Block)
    ensures var range := set e | e in unlinked && e.0 == b;
            |range| + |unlinked - range| == |unlinked| && unlinked - range == set e | e in unlinked && e.0 != b
  {
    var range := set e | e in unlinked && e.0 == b;
    assert unlinked == (unlinked - range) + range && (unlinked - range) !! range;
  }

  /** The blocks of a range of multimap entries with one key, in any order. */
  method Listed(range: set<(Block, Block)>, key: Block) returns (children: seq<Block>)
    requires forall e | e in range :: e.0 == key
    ensures forall c :: c in children <==> (key, c) in range
    ensures |children| == |range|
    ensures forall i, j | 0 <= i < j < |children| :: children[i] != children[j]
  {
    children := [];
    var rest := range;
    while rest != {}
      invariant rest <= range && |children| + |rest| == |range|
      invariant forall c :: c in children <==> (key, c) in range && (key, c) !in rest
      invariant forall i, j | 0 <= i < j < |children| :: children[i] != children[j]
      decreases rest
    {
      var e :| e in rest;
      assert e == (key, e.1);
      children := children + [e.1];
      rest := rest - {e};
    }
  }
}
