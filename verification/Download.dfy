/**
 What to ask of which peer (src/main.cpp:341-432, 456-536): blocks in flight mirror the peers' lists in every run, and
 the next blocks to ask for are exactly the missing ones in a window above the last common block.
 */
module Download {
  import opened Options
  import opened BlockIndex
  import opened BlockTree
  import opened InFlight
  import Chain

  const BLOCK_DOWNLOAD_WINDOW := 1024

  // ---------- the blocks to ask for ----------

  predicate Wanted(b: Block, have: set<Block>, flight: Flight) {
    b !in have && Chain.Hash(b) !in flight
  }

  /** The missing blocks on the way to `best`, above height lo and up to height hi. */
  function Wants(best: Block, lo: nat, hi: nat, have: set<Block>, flight: Flight): seq<Block>
    requires lo <= hi <= Height(best)
    decreases hi
  {
    if hi == lo then [] else
      Wants(best, lo, hi - 1, have, flight) + if Wanted(Ancestor(best, hi), have, flight) then [Ancestor(best, hi)] else []
  }

  /** They are ancestors of the best block, all of them missing and not asked for. */
  lemma {:induction false} WantsAre(best: Block, lo: nat, hi: nat, have: set<Block>, flight: Flight)
    requires lo <= hi <= Height(best)
    ensures forall b | b in Wants(best, lo, hi, have, flight) :: IsAncestor(b, best) && lo < Height(b) <= hi && Wanted(b, have, flight)
    decreases hi
  {
    hide Wanted, IsAncestor, Ancestor;
    if lo < hi {
      WantsAre(best, lo, hi - 1, have, flight);
      Reached(best, hi);
    }
  }

  /** Heights strictly ascend, from above lo up to hi. */
  predicate Ascending(w: seq<Block>, lo: nat, hi: nat) {
    && (forall i | 0 <= i < |w| :: lo < Height(w[i]) <= hi)
    && (forall i, j | 0 <= i < j < |w| :: Height(w[i]) < Height(w[j]))
  }

  /** They are in ascending order, and so distinct. */
  lemma {:induction false} WantsAscend(best: Block, lo: nat, hi: nat, have: set<Block>, flight: Flight)
    requires lo <= hi <= Height(best)
    ensures Ascending(Wants(best, lo, hi, have, flight), lo, hi)
    decreases hi
  {
    hide Wanted, Ancestor, Ascending, Height;
    if lo < hi {
      WantsAscend(best, lo, hi - 1, have, flight);
      Extended(Wants(best, lo, hi - 1, have, flight), Ancestor(best, hi), lo, hi);
    } else {
      NoneAscend(lo, hi);
    }
  }

  lemma NoneAscend(lo: nat, hi: nat)
    ensures Ascending([], lo, hi)
  {
  }

  lemma Extended(u: seq<Block>, b: Block, lo: nat, hi: nat)
    requires lo < hi == Height(b) && Ascending(u, lo, hi - 1)
    ensures Ascending(u, lo, hi) && Ascending(u + [b], lo, hi) && u + [] == u
  {
  }

  /** None is left out. */
  lemma {:induction false} WantsAll(best: Block, lo: nat, hi: nat, have: set<Block>, flight: Flight, h: nat)
    requires lo < h <= hi <= Height(best) && Wanted(Ancestor(best, h), have, flight)
    ensures Ancestor(best, h) in Wants(best, lo, hi, have, flight)
    decreases hi
  {
    hide Wanted, Ancestor;
    if h < hi {
      WantsAll(best, lo, hi - 1, have, flight, h);
    }
  }

  lemma Reached(best: Block, h: nat)
    requires h <= Height(best)
    ensures IsAncestor(Ancestor(best, h), best)
  {
  }

  ghost predicate StateOk(state: NodeState) {
    && (state.best.Some? ==> SkipBuilt(state.best.value))
    && (state.lastCommon.Some? ==> SkipBuilt(state.lastCommon.value))
  }

  ghost predicate IndexOk(index: map<nat, Block>) {
    forall h | h in index :: SkipBuilt(index[h])
  }

  class CNodes {
    var mapNodeState: Nodes
    var mapBlocksInFlight: Flight
    var nQueuedValidatedHeaders: int
    /** What the counter has kept of peers that went. */
    ghost var leaked: int

    ghost predicate Valid()
      reads this
    {
      && Inv(mapNodeState, mapBlocksInFlight)
      && (forall n | n in mapNodeState :: StateOk(mapNodeState[n]))
      && nQueuedValidatedHeaders == |Validated(mapBlocksInFlight)| + leaked && leaked >= 0
    }

    constructor ()
      ensures Valid() && mapNodeState == map[] && mapBlocksInFlight == map[] && leaked == 0
    {
      mapNodeState, mapBlocksInFlight, nQueuedValidatedHeaders, leaked := map[], map[], 0, 0;
    }

    /** A new peer; one that is known already is left as it is. */
    method InitializeNode(nodeid: int)
      requires Valid()
      modifies this`mapNodeState
      ensures Valid()
      ensures mapNodeState == if nodeid in old(mapNodeState) then old(mapNodeState) else old(mapNodeState)[nodeid := NEW_NODE]
    {
      if nodeid !in mapNodeState {
        ChangedOk(mapNodeState, mapBlocksInFlight, nodeid, NEW_NODE);
        mapNodeState := mapNodeState[nodeid := NEW_NODE];
      }
    }

    /** A peer goes, and what was asked of it with it; the counter of validated headers is not lowered. */
    method FinalizeNode(nodeid: int)
      requires Valid() && nodeid in mapNodeState
      modifies this`mapNodeState, this`mapBlocksInFlight, this`leaked
      ensures Valid()
      ensures mapNodeState == old(mapNodeState) - {nodeid}
      ensures mapBlocksInFlight == map h | h in old(mapBlocksInFlight) && old(mapBlocksInFlight)[h].0 != nodeid :: old(mapBlocksInFlight)[h]
      ensures leaked - old(leaked) == |Validated(old(mapBlocksInFlight))| - |Validated(mapBlocksInFlight)| >= 0
    {
      hide Inv, Validated;
      FinalizedOk(mapNodeState, mapBlocksInFlight, nodeid);
      ghost var flight, blocks := mapBlocksInFlight, mapNodeState[nodeid].blocks;
      var entries := mapNodeState[nodeid].blocks;
      for i := 0 to |entries|
        invariant mapNodeState == old(mapNodeState) && leaked == old(leaked)
        invariant mapBlocksInFlight == flight - Hashes(blocks[..i])
      {
        assert blocks[..i + 1] == blocks[..i] + [blocks[i]];
        assert Hashes(blocks[..i + 1]) == Hashes(blocks[..i]) + {blocks[i].hash};
        mapBlocksInFlight := mapBlocksInFlight - {entries[i].hash};
      }
      assert blocks[..|blocks|] == blocks;
      mapNodeState := mapNodeState - {nodeid};
      leaked := leaked + |Validated(flight)| - |Validated(mapBlocksInFlight)|;
    }

    /** A block came, from whomever. */
    method MarkBlockAsReceived(hash: nat)
      requires Valid()
      modifies this`mapNodeState, this`mapBlocksInFlight, this`nQueuedValidatedHeaders
      ensures Valid()
      ensures mapBlocksInFlight == old(mapBlocksInFlight) - {hash} && mapNodeState.Keys == old(mapNodeState).Keys
      ensures hash !in old(mapBlocksInFlight) ==> mapNodeState == old(mapNodeState) && nQueuedValidatedHeaders == old(nQueuedValidatedHeaders)
      ensures hash in old(mapBlocksInFlight) ==>
                var (n, e) := old(mapBlocksInFlight)[hash];
                && n in old(mapNodeState) && mapNodeState == old(mapNodeState)[n := Dropped(old(mapNodeState)[n], e)]
                && nQueuedValidatedHeaders == old(nQueuedValidatedHeaders) - (if e.fValidatedHeaders then 1 else 0)
                && mapNodeState[n].nStallingSince == 0 && mapNodeState[n].nBlocksInFlight == old(mapNodeState)[n].nBlocksInFlight - 1
    {
      hide Inv, Validated, Without;
      if hash in mapBlocksInFlight {
        ReceivedOk(mapNodeState, mapBlocksInFlight, hash);
        var (n, e) := mapBlocksInFlight[hash];
        nQueuedValidatedHeaders := nQueuedValidatedHeaders - if e.fValidatedHeaders then 1 else 0;
        var state := mapNodeState[n];
        state := state.(blocks := Without(state.blocks, e));
        state := state.(nBlocksInFlight := state.nBlocksInFlight - 1);
        state := state.(nStallingSince := 0);
        mapNodeState := mapNodeState[n := state];
        mapBlocksInFlight := mapBlocksInFlight - {hash};
      } else {
        assert mapBlocksInFlight - {hash} == mapBlocksInFlight;
      }
    }

    /** Ask a peer for a block, and nobody else any more. */
    method MarkBlockAsInFlight(nodeid: int, hash: nat, pindex: Option<Block>, nTime: int)
      requires Valid() && nodeid in mapNodeState
      modifies this`mapNodeState, this`mapBlocksInFlight, this`nQueuedValidatedHeaders
      ensures Valid()
      ensures var before := QueuedBefore(old(nQueuedValidatedHeaders), old(mapBlocksInFlight), hash);
              var e := QueuedBlock(hash, pindex, nTime, before, pindex.Some?);
              && mapBlocksInFlight == old(mapBlocksInFlight)[hash := (nodeid, e)]
              && var nodes := Received(old(mapNodeState), old(mapBlocksInFlight), hash);
              && nodeid in nodes && mapNodeState == nodes[nodeid := Queued(nodes[nodeid], e)]
              && nQueuedValidatedHeaders == before + if pindex.Some? then 1 else 0
    {
      hide Inv, Validated, Without;
      MarkBlockAsReceived(hash);
      var newentry := QueuedBlock(hash, pindex, nTime, nQueuedValidatedHeaders, pindex.Some?);
      InFlightOk(mapNodeState, mapBlocksInFlight, nodeid, newentry);
      nQueuedValidatedHeaders := nQueuedValidatedHeaders + if newentry.fValidatedHeaders then 1 else 0;
      var state := mapNodeState[nodeid];
      state := state.(blocks := state.blocks + [newentry], nBlocksInFlight := state.nBlocksInFlight + 1);
      mapNodeState := mapNodeState[nodeid := state];
      mapBlocksInFlight := mapBlocksInFlight[hash := (nodeid, newentry)];
    }

    /** The last unknown block a peer announced may be known now. */
    method ProcessBlockAvailability(nodeid: int, index: map<nat, Block>)
      requires Valid() && nodeid in mapNodeState && IndexOk(index)
      modifies this`mapNodeState
      ensures Valid() && mapNodeState.Keys == old(mapNodeState).Keys
      ensures mapNodeState == old(mapNodeState)[nodeid := mapNodeState[nodeid]]
      ensures mapNodeState[nodeid] == Available(old(mapNodeState)[nodeid], index)
    {
      hide Inv, Validated;
      var state := mapNodeState[nodeid];
      if state.hashLastUnknown != 0 {
        if state.hashLastUnknown in index && Work(index[state.hashLastUnknown]) > 0 {
          var b := index[state.hashLastUnknown];
          if state.best.None? || Work(b) >= Work(state.best.value) {
            state := state.(best := Some(b));
          }
          state := state.(hashLastUnknown := 0);
        }
      }
      ChangedOk(mapNodeState, mapBlocksInFlight, nodeid, state);
      mapNodeState := mapNodeState[nodeid := state];
    }

    /** A peer announced a block. */
    method UpdateBlockAvailability(nodeid: int, hash: nat, index: map<nat, Block>)
      requires Valid() && nodeid in mapNodeState && IndexOk(index)
      modifies this`mapNodeState
      ensures Valid() && mapNodeState.Keys == old(mapNodeState).Keys
      ensures mapNodeState == old(mapNodeState)[nodeid := mapNodeState[nodeid]]
      ensures mapNodeState[nodeid] == Announced(Available(old(mapNodeState)[nodeid], index), hash, index)
      ensures NoWorse(old(mapNodeState)[nodeid].best, mapNodeState[nodeid].best)
      ensures hash in index && Work(index[hash]) > 0 ==> NoWorse(Some(index[hash]), mapNodeState[nodeid].best)
    {
      hide Inv, Validated;
      ProcessBlockAvailability(nodeid, index);
      var state := mapNodeState[nodeid];
      if hash in index && Work(index[hash]) > 0 {
        if state.best.None? || Work(index[hash]) >= Work(state.best.value) {
          state := state.(best := Some(index[hash]));
        }
      } else {
        state := state.(hashLastUnknown := hash);
      }
      ChangedOk(mapNodeState, mapBlocksInFlight, nodeid, state);
      mapNodeState := mapNodeState[nodeid := state];
    }

    /**
     The next blocks to ask a peer for, at most `count` of them. `from` is the last common block, `seen` the height up
     to which blocks were looked at; `nodeStaller` is a peer that keeps the window from moving, -1 for none.
     */
    method FindNextBlocksToDownload(nodeid: int, count: nat, index: map<nat, Block>, chain: seq<Block>,
                                    have: set<Block>, linked: set<Block>, failed: set<Block>)
      returns (vBlocks: seq<Block>, nodeStaller: int, ghost from: Option<Block>, ghost seen: nat)
      requires Valid() && nodeid in mapNodeState && IndexOk(index)
      requires chain != [] && forall b | b in chain :: SkipBuilt(b)
      modifies this`mapNodeState
      ensures Valid() && mapNodeState.Keys == old(mapNodeState).Keys && mapNodeState == old(mapNodeState)[nodeid := mapNodeState[nodeid]]
      ensures from == StartFrom(Available(old(mapNodeState)[nodeid], index), chain, count)
      ensures from.None? ==> vBlocks == [] && nodeStaller == -1
      ensures from.Some? ==>
                var best := Available(old(mapNodeState)[nodeid], index).best.value;
                && Looked(best, from.value, seen, count, vBlocks, have, failed, mapBlocksInFlight)
                && nodeStaller == if Stalls(best, from.value, seen, vBlocks, have, failed, mapBlocksInFlight, nodeid)
                                  then WaitingFor(best, Height(from.value), seen, have, mapBlocksInFlight) else -1
      ensures count == 0 ==> mapNodeState == old(mapNodeState)
      ensures var state := Available(old(mapNodeState)[nodeid], index);
              count > 0 ==>
                mapNodeState[nodeid] == (if !Interesting(state, chain) then state else
                  state.(lastCommon := Some(if from.None? then state.best.value else LastLinked(state.best.value, from.value, seen, have, linked))))
    {
      hide Inv, Validated, Wants, IsAncestor, Ancestor, LastCommon, Looked, Stalls, SkipBuilt, LastLinked, WaitingFor;
      vBlocks, nodeStaller, from, seen := [], -1, None, 0;
      if count == 0 {
        return;
      }
      ProcessBlockAvailability(nodeid, index);
      var state := mapNodeState[nodeid];
      if state.best.None? || Work(state.best.value) < Work(chain[|chain| - 1]) {
        return;
      }
      var best := state.best.value;
      if state.lastCommon.None? {
        state := state.(lastCommon := Some(chain[if Height(best) < |chain| - 1 then Height(best) else |chain| - 1]));
      }
      var common := LastCommonAncestor(state.lastCommon.value, best);
      CommonBuilt(best, common);
      state := state.(lastCommon := Some(common));
      ChangedOk(mapNodeState, mapBlocksInFlight, nodeid, state);
      mapNodeState := mapNodeState[nodeid := state];
      if common == best {
        return;
      }
      from := Some(common);
      var lastCommon;
      vBlocks, nodeStaller, lastCommon, seen := Walk(nodeid, count, best, common, have, linked, failed);
      ChangedOk(mapNodeState, mapBlocksInFlight, nodeid, state.(lastCommon := Some(lastCommon)));
      mapNodeState := mapNodeState[nodeid := state.(lastCommon := Some(lastCommon))];
    }

    /** Look at the blocks on the way to `best`, in runs of at least 128 where there are so many. */
    method Walk(nodeid: int, count: nat, best: Block, common: Block, have: set<Block>, linked: set<Block>, failed: set<Block>)
      returns (vBlocks: seq<Block>, nodeStaller: int, lastCommon: Block, ghost seen: nat)
      requires count > 0 && SkipBuilt(best) && SkipBuilt(common) && IsAncestor(common, best)
      ensures SkipBuilt(lastCommon)
      ensures Looked(best, common, seen, count, vBlocks, have, failed, mapBlocksInFlight)
      ensures lastCommon == LastLinked(best, common, seen, have, linked)
      ensures nodeStaller == if Stalls(best, common, seen, vBlocks, have, failed, mapBlocksInFlight, nodeid)
                             then WaitingFor(best, Height(common), seen, have, mapBlocksInFlight) else -1
    {
      hide Wants, WaitingFor, Ancestor, SkipBuilt, IsAncestor, Wanted, Looked, Stalls, LastLinked, NoneFailed, Chain.Hash, Height;
      var c := Height(common);
      var nWindowEnd := c + BLOCK_DOWNLOAD_WINDOW;
      CommonBelow(best, common);
      var nMaxHeight := if Height(best) < nWindowEnd + 1 then Height(best) else nWindowEnd + 1;
      vBlocks, nodeStaller, lastCommon, seen := [], -1, common, c;
      var waitingfor := -1;
      var walk := c;
      WalkStart(best, common, have, linked, failed, mapBlocksInFlight);
      while walk < nMaxHeight
        invariant c <= walk <= nMaxHeight && nodeStaller == -1 && |vBlocks| < count
        invariant Walked(best, common, walk, vBlocks, have, failed, mapBlocksInFlight)
        invariant waitingfor == WaitingFor(best, c, walk, have, mapBlocksInFlight)
        invariant lastCommon == LastLinked(best, common, walk, have, linked)
      {
        var most := if count - |vBlocks| > 128 then count - |vBlocks| else 128;
        var nToFetch := if nMaxHeight - walk < most then nMaxHeight - walk else most;
        var vToFetch := Fetch(best, walk, nToFetch);
        ghost var start := walk;
        var i := 0;
        while i < nToFetch
          invariant 0 <= i <= nToFetch && walk == start + i && nodeStaller == -1 && |vBlocks| < count
          invariant Walked(best, common, walk, vBlocks, have, failed, mapBlocksInFlight)
          invariant waitingfor == WaitingFor(best, c, walk, have, mapBlocksInFlight)
          invariant lastCommon == LastLinked(best, common, walk, have, linked)
        {
          var pindex := vToFetch[i];
          seen := walk;
          LinkedBuilt(best, common, walk, have, linked);
          if pindex in failed {
            AtFailed(best, common, walk, count, vBlocks, have, failed, mapBlocksInFlight, nodeid);
            return;
          }
          WaitStep(best, c, walk + 1, have, mapBlocksInFlight);
          LinkedStep(best, common, walk + 1, have, linked);
          var wanted := false;
          if pindex in have {
            if pindex in linked {
              lastCommon := pindex;
            }
          } else if Chain.Hash(pindex) !in mapBlocksInFlight {
            wanted := true;
            if walk + 1 > nWindowEnd {
              if |vBlocks| == 0 && waitingfor != nodeid {
                nodeStaller := waitingfor;
              }
              AtWindowEnd(best, common, count, vBlocks, have, failed, mapBlocksInFlight, nodeid);
              return;
            }
          } else if waitingfor == -1 {
            waitingfor := mapBlocksInFlight[Chain.Hash(pindex)].0;
          }
          WalkStep(best, common, walk + 1, vBlocks, have, failed, mapBlocksInFlight);
          i := i + 1;
          walk := walk + 1;
          if wanted {
            vBlocks := vBlocks + [pindex];
            if |vBlocks| == count {
              seen := walk;
              LinkedBuilt(best, common, walk, have, linked);
              AtCount(best, common, walk, count, vBlocks, have, failed, mapBlocksInFlight, nodeid);
              return;
            }
          }
        }
      }
      seen := walk;
      LinkedBuilt(best, common, walk, have, linked);
      AtTop(best, common, walk, count, vBlocks, have, failed, mapBlocksInFlight, nodeid);
    }
  }

  /** The peer has a block that is no worse than the tip. */
  predicate Interesting(state: NodeState, chain: seq<Block>)
    requires chain != []
  {
    state.best.Some? && Work(state.best.value) >= Work(chain[|chain| - 1])
  }

  /** Where the search starts: the last block in common with the peer, if the peer has anything of interest. */
  function StartFrom(state: NodeState, chain: seq<Block>, count: nat): Option<Block>
    requires chain != []
  {
    if count == 0 || !Interesting(state, chain) then None else
      var best := state.best.value;
      var guess := if state.lastCommon.Some? then state.lastCommon.value else chain[if Height(best) < |chain| - 1 then Height(best) else |chain| - 1];
      var common := LastCommon(guess, best);
      if common == best then None else Some(common)
  }

  function Available(state: NodeState, index: map<nat, Block>): NodeState {
    var h := state.hashLastUnknown;
    if h == 0 || h !in index || Work(index[h]) == 0 then state
    else state.(hashLastUnknown := 0, best := if state.best.None? || Work(index[h]) >= Work(state.best.value) then Some(index[h]) else state.best)
  }

  /** The peer's state after it announced a block: its new best block if it is known and no worse, to be looked up later if not known. */
  function Announced(state: NodeState, h: nat, index: map<nat, Block>): NodeState {
    if h !in index || Work(index[h]) == 0 then state.(hashLastUnknown := h)
    else state.(best := if state.best.None? || Work(index[h]) >= Work(state.best.value) then Some(index[h]) else state.best)
  }

  predicate NoWorse(a: Option<Block>, b: Option<Block>) {
    a.Some? ==> b.Some? && Work(b.value) >= Work(a.value)
  }

  lemma CommonBuilt(best: Block, common: Block)
    requires SkipBuilt(best) && IsAncestor(common, best)
    ensures SkipBuilt(common)
  {
    SkipBuiltBelow(best, Height(common));
  }

  /** The n blocks above height h on the way to `best`: the highest by the skip list, the others from there down. */
  method Fetch(best: Block, h: nat, n: nat) returns (run: seq<Block>)
    requires SkipBuilt(best) && n > 0 && h + n <= Height(best)
    ensures |run| == n && forall i | 0 <= i < n :: run[i] == Ancestor(best, h + 1 + i)
  {
    hide Ancestor, SkipBuilt;
    var top := GetAncestor(best, h + n);
    var vToFetch := new Block[n](_ => top.value);
    var i := n - 1;
    while i > 0
      invariant 0 <= i < n && forall j | i <= j < n :: vToFetch[j] == Ancestor(best, h + 1 + j)
    {
      StepDown(best, h + 1 + i);
      vToFetch[i - 1] := vToFetch[i].pprev;
      i := i - 1;
    }
    run := vToFetch[..];
  }

  /** The peer of the first block on the way that is missing but asked for, -1 if there is none. */
  function WaitingFor(best: Block, lo: nat, hi: nat, have: set<Block>, flight: Flight): int
    requires lo <= hi <= Height(best)
    decreases hi
  {
    if hi == lo then -1 else
      var w := WaitingFor(best, lo, hi - 1, have, flight);
      var b := Ancestor(best, hi);
      if w == -1 && b !in have && Chain.Hash(b) in flight then flight[Chain.Hash(b)].0 else w
  }

  /** The last block up to height hi that is there and linked, or where the search started. */
  function LastLinked(best: Block, from: Block, hi: nat, have: set<Block>, linked: set<Block>): Block
    requires Height(from) <= hi <= Height(best)
    decreases hi
  {
    if hi == Height(from) then from else
      var b := Ancestor(best, hi);
      if b in have && b in linked then b else LastLinked(best, from, hi - 1, have, linked)
  }

  /** It is on the way to the best block, and no block above it that was looked at is there and linked. */
  lemma {:induction false} LastLinkedIs(best: Block, from: Block, hi: nat, have: set<Block>, linked: set<Block>)
    requires IsAncestor(from, best) && Height(from) <= hi <= Height(best)
    ensures var b := LastLinked(best, from, hi, have, linked);
            && IsAncestor(b, best) && Height(from) <= Height(b) <= hi && (b == from || (b in have && b in linked))
            && (forall h | Height(b) < h <= hi :: Ancestor(best, h) !in have || Ancestor(best, h) !in linked)
    decreases hi
  {
    hide IsAncestor;
    if hi > Height(from) {
      LastLinkedIs(best, from, hi - 1, have, linked);
      Reached(best, hi);
    }
  }

  ghost predicate NoneFailed(best: Block, lo: nat, hi: nat, failed: set<Block>)
    requires hi <= Height(best)
  {
    forall h | lo < h <= hi :: Ancestor(best, h) !in failed
  }

  /** Height up to which missing blocks are asked for, if blocks were looked at up to height `seen`. */
  function Within(from: Block, seen: nat): nat {
    if seen > Height(from) + BLOCK_DOWNLOAD_WINDOW then Height(from) + BLOCK_DOWNLOAD_WINDOW else seen
  }

  /** The blocks above `from` up to height `seen` were looked at: the missing ones in the window are asked for, none has
      failed, and the one just beyond the window is not missing. */
  ghost predicate Walked(best: Block, from: Block, seen: nat, vBlocks: seq<Block>, have: set<Block>, failed: set<Block>, flight: Flight) {
    && Height(from) <= seen <= Height(best) && seen <= Height(from) + BLOCK_DOWNLOAD_WINDOW + 1
    && vBlocks == Wants(best, Height(from), Within(from, seen), have, flight)
    && NoneFailed(best, Height(from), seen, failed)
    && (seen > Height(from) + BLOCK_DOWNLOAD_WINDOW ==> !Wanted(Ancestor(best, seen), have, flight))
  }

  /** The walk ends at height `seen`: as soon as there are enough, at the peer's best block, just beyond the window,
      below an invalid block, or at the end of the window below a missing block. */
  ghost predicate Looked(best: Block, from: Block, seen: nat, count: nat, vBlocks: seq<Block>, have: set<Block>, failed: set<Block>, flight: Flight) {
    && Walked(best, from, seen, vBlocks, have, failed, flight)
    && |vBlocks| <= count && (|vBlocks| == count ==> vBlocks != [] && vBlocks[|vBlocks| - 1] == Ancestor(best, seen))
    && (|vBlocks| == count || seen == Height(best) || seen == Height(from) + BLOCK_DOWNLOAD_WINDOW + 1
        || Ancestor(best, seen + 1) in failed || Beyond(best, from, seen, have, flight))
  }

  /** The window is used up, and the block just beyond it is missing. */
  ghost predicate Beyond(best: Block, from: Block, seen: nat, have: set<Block>, flight: Flight) {
    seen == Height(from) + BLOCK_DOWNLOAD_WINDOW && seen < Height(best) && Wanted(Ancestor(best, seen + 1), have, flight)
  }

  /** Nothing can be asked of the peer because the window is full of blocks asked of others; the block just beyond it
      is missing and valid. */
  ghost predicate Stalls(best: Block, from: Block, seen: nat, vBlocks: seq<Block>, have: set<Block>, failed: set<Block>, flight: Flight, nodeid: int)
    requires Height(from) <= seen <= Height(best)
  {
    && vBlocks == [] && Beyond(best, from, seen, have, flight) && Ancestor(best, seen + 1) !in failed
    && WaitingFor(best, Height(from), seen, have, flight) != nodeid
  }

  /** There is only one height at which the walk can end, and so only one result. */
  lemma SeenIsUnique(best: Block, from: Block, seen: nat, seen': nat, count: nat, vBlocks: seq<Block>, vBlocks': seq<Block>,
                     have: set<Block>, failed: set<Block>, flight: Flight)
    requires Looked(best, from, seen, count, vBlocks, have, failed, flight) && Looked(best, from, seen', count, vBlocks', have, failed, flight)
    ensures seen == seen' && vBlocks == vBlocks'
  {
    hide Wanted, Ancestor, Wants;
    NoLater(best, from, seen, seen', count, vBlocks, vBlocks', have, failed, flight);
    NoLater(best, from, seen', seen, count, vBlocks', vBlocks, have, failed, flight);
  }

  lemma NoLater(best: Block, from: Block, seen: nat, seen': nat, count: nat, vBlocks: seq<Block>, vBlocks': seq<Block>,
                have: set<Block>, failed: set<Block>, flight: Flight)
    requires Looked(best, from, seen, count, vBlocks, have, failed, flight) && Looked(best, from, seen', count, vBlocks', have, failed, flight)
    ensures seen' <= seen
  {
    hide Wanted, Ancestor, Wants;
    var c, w, w' := Height(from), Within(from, seen), Within(from, seen');
    WantsAscend(best, c, w, have, flight);
    WantsAscend(best, c, w', have, flight);
    if w <= w' {
      WantsPrefix(best, c, w, w', have, flight);
    }
  }

  lemma {:induction false} WantsPrefix(best: Block, lo: nat, hi: nat, hi': nat, have: set<Block>, flight: Flight)
    requires lo <= hi <= hi' <= Height(best)
    ensures Wants(best, lo, hi, have, flight) <= Wants(best, lo, hi', have, flight)
    decreases hi'
  {
    hide Wanted, Ancestor;
    if hi < hi' {
      WantsPrefix(best, lo, hi, hi' - 1, have, flight);
    }
  }

  lemma CommonBelow(best: Block, common: Block)
    requires IsAncestor(common, best)
    ensures Height(common) <= Height(best)
  {
  }

  lemma WalkStart(best: Block, common: Block, have: set<Block>, linked: set<Block>, failed: set<Block>, flight: Flight)
    requires IsAncestor(common, best) && SkipBuilt(common)
    ensures Height(common) <= Height(best) && Walked(best, common, Height(common), [], have, failed, flight)
    ensures WaitingFor(best, Height(common), Height(common), have, flight) == -1
    ensures LastLinked(best, common, Height(common), have, linked) == common
  {
  }

  lemma WaitStep(best: Block, lo: nat, hi: nat, have: set<Block>, flight: Flight)
    requires lo < hi <= Height(best)
    ensures WaitingFor(best, lo, hi, have, flight) ==
            var w, b := WaitingFor(best, lo, hi - 1, have, flight), Ancestor(best, hi);
            if w == -1 && b !in have && Chain.Hash(b) in flight then flight[Chain.Hash(b)].0 else w
  {
    hide Ancestor, Chain.Hash;
  }

  lemma LinkedStep(best: Block, from: Block, hi: nat, have: set<Block>, linked: set<Block>)
    requires Height(from) < hi <= Height(best)
    ensures LastLinked(best, from, hi, have, linked) == var b := Ancestor(best, hi);
            if b in have && b in linked then b else LastLinked(best, from, hi - 1, have, linked)
  {
    hide Ancestor;
  }

  lemma LinkedBuilt(best: Block, from: Block, hi: nat, have: set<Block>, linked: set<Block>)
    requires SkipBuilt(best) && IsAncestor(from, best) && Height(from) <= hi <= Height(best)
    ensures SkipBuilt(LastLinked(best, from, hi, have, linked))
  {
    LastLinkedIs(best, from, hi, have, linked);
    CommonBuilt(best, LastLinked(best, from, hi, have, linked));
  }

  /** One more block was looked at. */
  lemma WalkStep(best: Block, from: Block, hi: nat, vBlocks: seq<Block>, have: set<Block>, failed: set<Block>, flight: Flight)
    requires Height(from) < hi <= Height(best) && hi <= Height(from) + BLOCK_DOWNLOAD_WINDOW + 1
    requires Walked(best, from, hi - 1, vBlocks, have, failed, flight) && Ancestor(best, hi) !in failed
    requires var b := Ancestor(best, hi); hi <= Height(from) + BLOCK_DOWNLOAD_WINDOW || b in have || Chain.Hash(b) in flight
    ensures var b := Ancestor(best, hi);
            Walked(best, from, hi, if b !in have && Chain.Hash(b) !in flight then vBlocks + [b] else vBlocks, have, failed, flight)
  {
    FailedStep(best, Height(from), hi, failed);
    hide Ancestor, Chain.Hash, Wants, NoneFailed, Height;
    if hi <= Height(from) + BLOCK_DOWNLOAD_WINDOW {
      WantsStep(best, Height(from), hi, have, flight);
    }
  }

  lemma WantsStep(best: Block, lo: nat, hi: nat, have: set<Block>, flight: Flight)
    requires lo < hi <= Height(best)
    ensures var b, w := Ancestor(best, hi), Wants(best, lo, hi - 1, have, flight);
            Wants(best, lo, hi, have, flight) == if b !in have && Chain.Hash(b) !in flight then w + [b] else w
  {
    hide Ancestor, Chain.Hash;
    assert Wants(best, lo, hi - 1, have, flight) + [] == Wants(best, lo, hi - 1, have, flight);
  }

  lemma FailedStep(best: Block, lo: nat, hi: nat, failed: set<Block>)
    requires lo < hi <= Height(best) && NoneFailed(best, lo, hi - 1, failed) && Ancestor(best, hi) !in failed
    ensures NoneFailed(best, lo, hi, failed)
  {
    hide Ancestor;
  }

  // The four ways in which the walk ends.

  lemma AtFailed(best: Block, from: Block, seen: nat, count: nat, vBlocks: seq<Block>, have: set<Block>, failed: set<Block>, flight: Flight, nodeid: int)
    requires Walked(best, from, seen, vBlocks, have, failed, flight) && |vBlocks| < count
    requires seen < Height(best) && Ancestor(best, seen + 1) in failed
    ensures Looked(best, from, seen, count, vBlocks, have, failed, flight)
    ensures !Stalls(best, from, seen, vBlocks, have, failed, flight, nodeid)
  {
    hide Wants, Ancestor;
  }

  lemma AtWindowEnd(best: Block, from: Block, count: nat, vBlocks: seq<Block>, have: set<Block>, failed: set<Block>, flight: Flight, nodeid: int)
    requires var seen := Height(from) + BLOCK_DOWNLOAD_WINDOW;
             && Walked(best, from, seen, vBlocks, have, failed, flight) && |vBlocks| < count && seen < Height(best)
             && var b := Ancestor(best, seen + 1); b !in failed && b !in have && Chain.Hash(b) !in flight
    ensures var seen := Height(from) + BLOCK_DOWNLOAD_WINDOW;
            && Looked(best, from, seen, count, vBlocks, have, failed, flight)
            && (Stalls(best, from, seen, vBlocks, have, failed, flight, nodeid)
                <==> vBlocks == [] && WaitingFor(best, Height(from), seen, have, flight) != nodeid)
  {
    hide Wants, Ancestor, Chain.Hash, WaitingFor;
  }

  lemma AtCount(best: Block, from: Block, seen: nat, count: nat, vBlocks: seq<Block>, have: set<Block>, failed: set<Block>, flight: Flight, nodeid: int)
    requires Walked(best, from, seen, vBlocks, have, failed, flight) && |vBlocks| == count > 0
    requires vBlocks[count - 1] == Ancestor(best, seen)
    ensures Looked(best, from, seen, count, vBlocks, have, failed, flight)
    ensures !Stalls(best, from, seen, vBlocks, have, failed, flight, nodeid)
  {
    hide Wants, Ancestor;
  }

  lemma AtTop(best: Block, from: Block, seen: nat, count: nat, vBlocks: seq<Block>, have: set<Block>, failed: set<Block>, flight: Flight, nodeid: int)
    requires Walked(best, from, seen, vBlocks, have, failed, flight) && |vBlocks| < count
    requires seen == Height(best) || seen == Height(from) + BLOCK_DOWNLOAD_WINDOW + 1
    ensures Looked(best, from, seen, count, vBlocks, have, failed, flight)
    ensures !Stalls(best, from, seen, vBlocks, have, failed, flight, nodeid)
  {
    hide Wants, Ancestor;
  }
}
