/** Blocks that were asked of peers: a map from hashes and a list for every peer that mirror each other (src/main.cpp:156-167, 341-397). */
module InFlight {
  import opened Options
  import opened Arithmetic
  import opened BlockIndex

  datatype QueuedBlock = QueuedBlock(hash: nat, pindex: Option<Block>, nTime: int, nValidatedQueuedBefore: int, fValidatedHeaders: bool)

  datatype NodeState = NodeState(
    best: Option<Block>, hashLastUnknown: nat, lastCommon: Option<Block>, nStallingSince: int,
    blocks: seq<QueuedBlock>, nBlocksInFlight: int)

  type Nodes = map<int, NodeState>

  /** Whom a block was asked of, and its entry in that peer's list. */
  type Flight = map<nat, (int, QueuedBlock)>

  const NEW_NODE := NodeState(None, 0, None, 0, [], 0)

  /** Every entry of the map is in the list of its peer. */
  ghost predicate Listed(nodes: Nodes, flight: Flight, h: nat)
    requires h in flight
  {
    flight[h].1.hash == h && flight[h].0 in nodes && flight[h].1 in nodes[flight[h].0].blocks
  }

  /** Every entry of a peer's list is in the map, once. */
  ghost predicate Mirrored(n: int, state: NodeState, flight: Flight) {
    && state.nBlocksInFlight == |state.blocks|
    && (forall e | e in state.blocks :: e.hash in flight && flight[e.hash] == (n, e))
    && (forall i, j | 0 <= i < j < |state.blocks| :: state.blocks[i] != state.blocks[j])
  }

  ghost predicate Inv(nodes: Nodes, flight: Flight) {
    && (forall h {:trigger Listed(nodes, flight, h)} | h in flight :: Listed(nodes, flight, h))
    && (forall n {:trigger Mirrored(n, nodes[n], flight)} | n in nodes :: Mirrored(n, nodes[n], flight))
  }

  function Validated(flight: Flight): set<nat> {
    set h | h in flight && flight[h].1.fValidatedHeaders
  }

  /** The list without an entry. */
  function Without(blocks: seq<QueuedBlock>, e: QueuedBlock): (r: seq<QueuedBlock>)
    ensures |r| == if e in blocks then |blocks| - 1 else |blocks|
  {
    if blocks == [] then [] else if blocks[0] == e then blocks[1..] else [blocks[0]] + Without(blocks[1..], e)
  }

  ghost predicate Distinct(blocks: seq<QueuedBlock>) {
    forall i, j | 0 <= i < j < |blocks| :: blocks[i] != blocks[j]
  }

  lemma {:induction false} WithoutIs(blocks: seq<QueuedBlock>, e: QueuedBlock)
    requires Distinct(blocks)
    ensures Distinct(Without(blocks, e)) && forall x :: x in Without(blocks, e) <==> x in blocks && x != e
  {
    if blocks != [] {
      WithoutIs(blocks[1..], e);
      if blocks[0] == e {
        assert forall x :: x in blocks <==> x == e || x in blocks[1..];
        assert e !in blocks[1..];
      } else {
        assert forall x :: x in blocks <==> x == blocks[0] || x in blocks[1..];
        assert blocks[0] !in Without(blocks[1..], e) by { assert blocks[0] !in blocks[1..]; }
      }
    }
  }

  /** The peer's state after an entry left its list. */
  function Dropped(state: NodeState, e: QueuedBlock): NodeState {
    state.(blocks := Without(state.blocks, e), nBlocksInFlight := state.nBlocksInFlight - 1, nStallingSince := 0)
  }

  /** The peers' states after a block came, from whomever. */
  function Received(nodes: Nodes, flight: Flight, hash: nat): Nodes {
    if hash in flight && flight[hash].0 in nodes then nodes[flight[hash].0 := Dropped(nodes[flight[hash].0], flight[hash].1)] else nodes
  }

  /** The counter of validated headers in flight after a block came. */
  function QueuedBefore(n: int, flight: Flight, hash: nat): int {
    n - if hash in flight && flight[hash].1.fValidatedHeaders then 1 else 0
  }

  lemma ReceivedOk(nodes: Nodes, flight: Flight, hash: nat)
    requires Inv(nodes, flight) && hash in flight
    ensures flight[hash].0 in nodes
    ensures var (n, e) := flight[hash]; Inv(nodes[n := Dropped(nodes[n], e)], flight - {hash})
    ensures |Validated(flight - {hash})| == |Validated(flight)| - if flight[hash].1.fValidatedHeaders then 1 else 0
  {
    assert Listed(nodes, flight, hash);
    var (n, e) := flight[hash];
    var nodes', flight' := nodes[n := Dropped(nodes[n], e)], flight - {hash};
    assert Mirrored(n, nodes[n], flight);
    WithoutIs(nodes[n].blocks, e);
    forall h | h in flight' ensures Listed(nodes', flight', h) {
      assert Listed(nodes, flight, h);
    }
    forall m | m in nodes' ensures Mirrored(m, nodes'[m], flight') {
      assert Mirrored(m, nodes[m], flight);
    }
    assert Validated(flight') == Validated(flight) - {hash};
  }

  /** The peer's state with one more entry at the end of its list. */
  function Queued(state: NodeState, e: QueuedBlock): NodeState {
    state.(blocks := state.blocks + [e], nBlocksInFlight := state.nBlocksInFlight + 1)
  }

  lemma InFlightOk(nodes: Nodes, flight: Flight, n: int, e: QueuedBlock)
    requires Inv(nodes, flight) && n in nodes && e.hash !in flight
    ensures Inv(nodes[n := Queued(nodes[n], e)], flight[e.hash := (n, e)])
    ensures |Validated(flight[e.hash := (n, e)])| == |Validated(flight)| + if e.fValidatedHeaders then 1 else 0
  {
    hide Mirrored, Listed, Queued, Validated;
    ValidatedMore(flight, n, e);
    var nodes', flight' := nodes[n := Queued(nodes[n], e)], flight[e.hash := (n, e)];
    forall h | h in flight' ensures Listed(nodes', flight', h) {
      if h != e.hash {
        assert Listed(nodes, flight, h);
      }
      QueuedListed(nodes, flight, n, e, h);
    }
    forall m | m in nodes' ensures Mirrored(m, nodes'[m], flight') {
      assert Mirrored(m, nodes[m], flight);
      QueuedMirrored(m, nodes[m], flight, n, e);
    }
  }

  lemma ValidatedMore(flight: Flight, n: int, e: QueuedBlock)
    requires e.hash !in flight
    ensures |Validated(flight[e.hash := (n, e)])| == |Validated(flight)| + if e.fValidatedHeaders then 1 else 0
  {
    assert Validated(flight[e.hash := (n, e)]) == Validated(flight) + if e.fValidatedHeaders then {e.hash} else {};
  }

  lemma QueuedListed(nodes: Nodes, flight: Flight, n: int, e: QueuedBlock, h: nat)
    requires n in nodes && (h == e.hash || (h in flight && Listed(nodes, flight, h)))
    ensures Listed(nodes[n := Queued(nodes[n], e)], flight[e.hash := (n, e)], h)
  {
    assert (nodes[n].blocks + [e])[|nodes[n].blocks|] == e;
  }

  lemma QueuedMirrored(m: int, state: NodeState, flight: Flight, n: int, e: QueuedBlock)
    requires Mirrored(m, state, flight) && e.hash !in flight
    ensures Mirrored(m, if m == n then Queued(state, e) else state, flight[e.hash := (n, e)])
  {
    assert e !in state.blocks;
  }

  function Hashes(blocks: seq<QueuedBlock>): set<nat> {
    set e | e in blocks :: e.hash
  }

  lemma FinalizedOk(nodes: Nodes, flight: Flight, n: int)
    requires Inv(nodes, flight) && n in nodes
    ensures Inv(nodes - {n}, flight - Hashes(nodes[n].blocks))
    ensures forall h | h in flight :: h in Hashes(nodes[n].blocks) <==> flight[h].0 == n
    ensures |Validated(flight - Hashes(nodes[n].blocks))| <= |Validated(flight)|
  {
    var gone := Hashes(nodes[n].blocks);
    var nodes', flight' := nodes - {n}, flight - gone;
    assert Mirrored(n, nodes[n], flight);
    forall h | h in flight ensures h in gone <==> flight[h].0 == n {
      assert Listed(nodes, flight, h);
    }
    forall h | h in flight' ensures Listed(nodes', flight', h) {
      assert Listed(nodes, flight, h);
    }
    forall m | m in nodes' ensures Mirrored(m, nodes'[m], flight') {
      assert Mirrored(m, nodes[m], flight);
      forall e | e in nodes[m].blocks ensures e.hash in flight' {
        assert flight[e.hash].0 == m;
      }
    }
    SubsetSize(Validated(flight'), Validated(flight));
  }

  lemma ChangedOk(nodes: Nodes, flight: Flight, n: int, state: NodeState)
    requires Inv(nodes, flight)
    requires if n in nodes then state.blocks == nodes[n].blocks && state.nBlocksInFlight == nodes[n].nBlocksInFlight
             else state.blocks == [] && state.nBlocksInFlight == 0
    ensures Inv(nodes[n := state], flight)
  {
    var nodes' := nodes[n := state];
    forall h | h in flight ensures Listed(nodes', flight, h) {
      assert Listed(nodes, flight, h);
    }
    forall m | m in nodes' ensures Mirrored(m, nodes'[m], flight) {
      if m in nodes {
        assert Mirrored(m, nodes[m], flight);
      }
    }
  }

  /** Map and lists are in bijection: a peer's counter is the number of blocks in flight from it. */
  lemma CounterIsCount(nodes: Nodes, flight: Flight, n: int)
    requires Inv(nodes, flight) && n in nodes
    ensures nodes[n].nBlocksInFlight == |set h | h in flight && flight[h].0 == n|
  {
    var mine := set h | h in flight && flight[h].0 == n;
    assert Mirrored(n, nodes[n], flight);
    forall h | h in mine ensures h in Hashes(nodes[n].blocks) {
      assert Listed(nodes, flight, h);
    }
    assert mine == Hashes(nodes[n].blocks);
    HashCount(nodes[n].blocks, flight, n);
  }

  lemma {:induction false} HashCount(blocks: seq<QueuedBlock>, flight: Flight, n: int)
    requires Distinct(blocks) && forall e | e in blocks :: e.hash in flight && flight[e.hash] == (n, e)
    ensures |Hashes(blocks)| == |blocks|
  {
    if blocks != [] {
      HashCount(blocks[1..], flight, n);
      assert Hashes(blocks) == Hashes(blocks[1..]) + {blocks[0].hash};
      assert blocks[0] !in blocks[1..];
      assert forall e | e in blocks[1..] :: e in blocks && flight[e.hash] == (n, e);
      assert blocks[0].hash !in Hashes(blocks[1..]);
    }
  }
}
