/**
 The block tree as blocks arrive in any order (src/main.cpp:3016-3131, 3422-3526): which blocks have
 their data, which are linked to genesis through data, which wait for a missing ancestor, and which
 are candidates for the best chain. The invariant is CheckBlockIndex (src/main.cpp:4189-4330).
 */
module BlockTree {
  import opened BlockIndex

  datatype Verdict = Accept | Reject | SystemError

  /** The index and its per-block flags. `data` holds nTx of the blocks with BLOCK_HAVE_DATA, `addr` is
      the entry's address, `verdict` what ConnectBlock says about a block. */
  datatype Tree = Tree(
    addr: Block -> int, verdict: Block -> Verdict,
    index: set<Block>, data: map<Block, nat>, failedValid: set<Block>, failedChild: set<Block>,
    nChainTx: map<Block, nat>, nSequenceId: map<Block, nat>,
    candidates: set<Block>, unlinked: set<(Block, Block)>, tip: Block)
  {
    predicate Failed(b: Block) {
      b in failedValid || b in failedChild
    }

    predicate Linked(b: Block) {
      ChainTx(nChainTx, b) > 0
    }

    /** CBlockIndexWorkComparator: a sorts before b. */
    predicate Worse(a: Block, b: Block) {
      Before(nSequenceId, addr, a, b)
    }

    /** Neither the block nor any ancestor is marked failed. */
    ghost predicate Clean(b: Block) {
      CleanPath(failedValid, failedChild, b)
    }

    /** The block and its ancestors have data and pass ConnectBlock: it may have been a tip. */
    ghost predicate Connected(b: Block) {
      ConnectedPath(data, verdict, b)
    }

    /** Blocks with data under an unlinked parent, keyed by that parent; `pending` are on their way out. */
    ghost predicate Waiting(pending: set<Block>) {
      && (forall e | e in unlinked ::
            e.1 in data && e.1 != Genesis && e.0 == e.1.pprev && !Linked(e.1) && !Linked(e.0) && e.1 !in pending)
      && (forall b | b in data && !Linked(b) && b != Genesis && !Failed(b.pprev) :: (b.pprev, b) in unlinked || b in pending)
    }

    ghost predicate Marked() {
      && (forall b | b in failedValid :: b in index && b != Genesis && (b !in data || verdict(b) == Reject))
      && (forall b | b in failedChild :: b in index && BelowFailed(failedValid, b))
    }

    ghost predicate TreeOk() {
      TreeShaped(index, addr)
    }

    ghost predicate Core() {
      && TreeShaped(index, addr) && Summed(index, data, nChainTx, nSequenceId) && Marked()
      && (forall c | c in candidates :: c in index && Linked(c))
      && tip in index && Linked(tip) && Connected(tip)
    }

    ghost predicate Inv() {
      Core() && Waiting({})
    }

    /** Every linked block without failed ancestor that is no worse than w is a candidate. */
    ghost predicate Complete(w: Block) {
      forall b | b in index && Linked(b) && Clean(b) && !Worse(b, w) :: b in candidates
    }

    ghost predicate NoneWorse(w: Block) {
      forall c | c in candidates :: !Worse(c, w)
    }

    /** CheckBlockIndex's rule for the candidate set. */
    ghost predicate Settled() {
      Complete(tip) && NoneWorse(tip)
    }
  }

  ghost predicate CleanPath(failedValid: set<Block>, failedChild: set<Block>, b: Block) {
    forall a {:trigger IsAncestor(a, b)} | IsAncestor(a, b) :: a !in failedValid && a !in failedChild
  }

  ghost predicate ConnectedPath(data: map<Block, nat>, verdict: Block -> Verdict, b: Block) {
    forall a {:trigger IsAncestor(a, b)} | IsAncestor(a, b) :: a == Genesis || (a in data && verdict(a) == Accept)
  }

  ghost predicate BelowFailed(failedValid: set<Block>, b: Block) {
    exists a :: IsAncestor(a, b) && a != b && a in failedValid
  }

  predicate Rooted(index: set<Block>, b: Block) {
    b == Genesis || (b.pprev in index && b.proof >= 1)
  }

  ghost predicate TreeShaped(index: set<Block>, addr: Block -> int) {
    && Genesis in index
    && (forall b {:trigger Rooted(index, b)} | b in index :: Rooted(index, b))
    && (forall a, b | a in index && b in index && a != b :: addr(a) != addr(b))
  }

  function ChainTx(nChainTx: map<Block, nat>, b: Block): nat {
    if b in nChainTx then nChainTx[b] else 0
  }

  /** nChainTx is set for a block only on top of a linked parent, as the running sum of nTx. */
  predicate SumAt(data: map<Block, nat>, nChainTx: map<Block, nat>, b: Block) {
    ChainTx(nChainTx, b) > 0 ==>
      b in data &&
      (if b == Genesis then ChainTx(nChainTx, b) == data[b]
       else ChainTx(nChainTx, b.pprev) > 0 && ChainTx(nChainTx, b) == ChainTx(nChainTx, b.pprev) + data[b])
  }

  ghost predicate Summed(index: set<Block>, data: map<Block, nat>, nChainTx: map<Block, nat>, nSequenceId: map<Block, nat>) {
    && nChainTx.Keys == index && nSequenceId.Keys == index && data.Keys <= index
    && (forall b | b in data :: data[b] >= 1)
    && ChainTx(nChainTx, Genesis) > 0
    && (forall b {:trigger SumAt(data, nChainTx, b)} | b in index :: SumAt(data, nChainTx, b))
    && (forall b | b in index && nChainTx[b] == 0 :: nSequenceId[b] == 0)
  }

  function Work(b: Block): nat {
    if b == Genesis then 0 else Work(b.pprev) + b.proof
  }

  function SeqId(ids: map<Block, nat>, b: Block): nat {
    if b in ids then ids[b] else 0
  }

  predicate Before(ids: map<Block, nat>, addr: Block -> int, a: Block, b: Block) {
    if Work(a) != Work(b) then Work(a) < Work(b)
    else if SeqId(ids, a) != SeqId(ids, b) then SeqId(ids, a) > SeqId(ids, b)
    else addr(a) > addr(b)
  }

  /** Ids were given to linked blocks in the order in which they were linked, and `next` is the next one. */
  ghost predicate Numbered(nChainTx: map<Block, nat>, ids: map<Block, nat>, next: nat) {
    && (forall b | b in ids :: ids[b] < next)
    && (forall a, b | a in ids && b in ids && a != b && ChainTx(nChainTx, a) > 0 && ChainTx(nChainTx, b) > 0 :: ids[a] != ids[b])
  }

  /** Of several tips with the same work the one seen first stays: all other candidates have more work. */
  ghost predicate FirstSeen(candidates: set<Block>, tip: Block) {
    forall c | c in candidates :: c == tip || Work(c) > Work(tip)
  }

  // ---------- consequences of the invariant ----------

  ghost predicate AllData(t: Tree, b: Block) {
    forall a | IsAncestor(a, b) :: a in t.data
  }

  function PathTx(t: Tree, b: Block): nat
    requires AllData(t, b)
  {
    (assert IsAncestor(b, b); t.data[b]) +
    (if b == Genesis then 0 else (AllDataBelow(t, b); PathTx(t, b.pprev)))
  }

  lemma AllDataBelow(t: Tree, b: Block)
    requires b != Genesis
    ensures AllData(t, b) <==> b in t.data && AllData(t, b.pprev)
  {
    assert IsAncestor(b, b);
    assert forall a | IsAncestor(a, b.pprev) :: IsAncestor(a, b);
    assert forall a | IsAncestor(a, b) :: a == b || IsAncestor(a, b.pprev);
  }

  lemma CleanBelow(t: Tree, b: Block)
    requires b != Genesis
    ensures t.Clean(b) <==> !t.Failed(b) && t.Clean(b.pprev)
  {
    assert IsAncestor(b, b);
    assert forall a | IsAncestor(a, b.pprev) :: IsAncestor(a, b);
    assert forall a | IsAncestor(a, b) :: a == b || IsAncestor(a, b.pprev);
  }

  lemma ConnectedBelow(t: Tree, b: Block)
    requires b != Genesis
    ensures t.Connected(b) <==> b in t.data && t.verdict(b) == Accept && t.Connected(b.pprev)
  {
    assert IsAncestor(b, b);
    assert forall a | IsAncestor(a, b.pprev) :: IsAncestor(a, b);
    assert forall a | IsAncestor(a, b) :: a == b || IsAncestor(a, b.pprev);
  }

  lemma {:induction false} InIndex(t: Tree, a: Block, b: Block)
    requires TreeShaped(t.index, t.addr) && b in t.index && IsAncestor(a, b)
    ensures a in t.index && Work(a) <= Work(b) && (a != b ==> Work(a) < Work(b))
    decreases Height(b)
  {
    assert Rooted(t.index, b);
    if a != b {
      InIndex(t, a, b.pprev);
    }
  }

  lemma {:induction false} LinkedBelow(t: Tree, a: Block, b: Block)
    requires TreeShaped(t.index, t.addr) && Summed(t.index, t.data, t.nChainTx, t.nSequenceId) && t.Linked(b) && IsAncestor(a, b)
    ensures t.Linked(a) && a in t.data
    decreases Height(b)
  {
    assert SumAt(t.data, t.nChainTx, b);
    if a != b {
      LinkedBelow(t, a, b.pprev);
    }
  }

  /** For every block without failed ancestor, in every arrival order: nChainTx is set exactly when it and all
      ancestors have data, and is then the number of transactions on its path; and it waits in
      mapBlocksUnlinked exactly when it has data and some ancestor has not. */
  lemma {:induction false} ChainTxExact(t: Tree, b: Block)
    requires t.Inv() && b in t.index && t.Clean(b)
    ensures t.nChainTx[b] > 0 <==> AllData(t, b)
    ensures t.nChainTx[b] > 0 ==> t.nChainTx[b] == PathTx(t, b)
    ensures b != Genesis ==> ((b.pprev, b) in t.unlinked <==> b in t.data && !AllData(t, b))
    decreases Height(b)
  {
    if b == Genesis {
      assert forall a | IsAncestor(a, Genesis) :: a == Genesis;
    } else {
      AllDataBelow(t, b);
      CleanBelow(t, b);
      assert SumAt(t.data, t.nChainTx, b) && Rooted(t.index, b);
      ChainTxExact(t, b.pprev);
      assert IsAncestor(b.pprev, b.pprev);
    }
  }

  /** A block that may have been a tip has no failed ancestor, now or later. */
  lemma ConnectedIsClean(t: Tree, b: Block)
    requires t.Core() && b in t.index && t.Connected(b)
    ensures t.Clean(b)
  {
    forall a | IsAncestor(a, b) ensures !t.Failed(a) {
      if a in t.failedChild {
        assert BelowFailed(t.failedValid, a);
        var f :| IsAncestor(f, a) && f != a && f in t.failedValid;
        AncestorTransitive(f, a, b);
      }
    }
  }

  lemma WorseIsStrictOrder(t: Tree, a: Block, b: Block, c: Block)
    requires TreeShaped(t.index, t.addr) && a in t.index && b in t.index && c in t.index
    ensures !t.Worse(a, a)
    ensures t.Worse(a, b) && t.Worse(b, c) ==> t.Worse(a, c)
    ensures a != b ==> t.Worse(a, b) || t.Worse(b, a)
    ensures t.Worse(a, b) ==> !t.Worse(b, a)
  {
  }

  lemma {:induction false} GreatestExists(t: Tree, s: set<Block>) returns (m: Block)
    requires TreeShaped(t.index, t.addr) && s <= t.index && s != {}
    ensures m in s && forall c | c in s :: c == m || t.Worse(c, m)
    decreases s
  {
    m :| m in s;
    if s != {m} {
      var rest := GreatestExists(t, s - {m});
      if t.Worse(m, rest) {
        m := rest;
      } else {
        forall c | c in s ensures c == m || t.Worse(c, m) {
          WorseIsStrictOrder(t, c, rest, m);
        }
      }
    }
  }

  lemma {:induction false} LeastExists(t: Tree, s: set<Block>) returns (m: Block)
    requires TreeShaped(t.index, t.addr) && s <= t.index && s != {}
    ensures m in s && forall c | c in s :: c == m || t.Worse(m, c)
    decreases s
  {
    m :| m in s;
    if s != {m} {
      var rest := LeastExists(t, s - {m});
      if t.Worse(rest, m) {
        m := rest;
      } else {
        forall c | c in s ensures c == m || t.Worse(m, c) {
          WorseIsStrictOrder(t, m, rest, c);
        }
      }
    }
  }

  // ---------- what each arrival does to the invariant ----------

  /** More failed marks: fewer blocks are clean, and what lies below a failed block still does. */
  lemma FailuresGrow(t: Tree, t': Tree)
    requires t.failedValid <= t'.failedValid && t.failedChild <= t'.failedChild
    ensures forall x {:trigger t'.Clean(x)} :: t'.Clean(x) ==> t.Clean(x)
    ensures forall x {:trigger BelowFailed(t'.failedValid, x)} :: BelowFailed(t.failedValid, x) ==> BelowFailed(t'.failedValid, x)
  {
    forall x | t'.Clean(x) ensures t.Clean(x) {
    }
    forall x | BelowFailed(t.failedValid, x) ensures BelowFailed(t'.failedValid, x) {
      var a :| IsAncestor(a, x) && a != x && a in t.failedValid;
    }
  }

  lemma HeaderAdded(t: Tree, t': Tree, b: Block)
    requires t.Inv() && t.Settled() && b !in t.index && b.Block? && b.pprev in t.index && b.proof >= 1
    requires forall a | a in t.index :: t.addr(a) != t.addr(b)
    requires t' == t.(index := t.index + {b}, nChainTx := t.nChainTx[b := 0], nSequenceId := t.nSequenceId[b := 0])
    ensures t'.Inv() && t'.Settled()
  {
    HeaderShaped(t.index, t.addr, b);
    HeaderSummed(t.index, t.data, t.nChainTx, t.nSequenceId, b);
    HeaderSettled(t, t', b);
    HeaderWaiting(t, t', b);
    hide TreeShaped, Summed, CleanPath, BelowFailed, ConnectedPath, Tree.Settled, Tree.Waiting;
    assert forall x :: ChainTx(t'.nChainTx, x) == ChainTx(t.nChainTx, x);
  }

  lemma HeaderWaiting(t: Tree, t': Tree, b: Block)
    requires t.Waiting({})
    requires t' == t.(index := t.index + {b}, nChainTx := t.nChainTx[b := 0], nSequenceId := t.nSequenceId[b := 0])
    requires ChainTx(t.nChainTx, b) == 0
    ensures t'.Waiting({})
  {
    assert forall x :: ChainTx(t'.nChainTx, x) == ChainTx(t.nChainTx, x);
  }

  lemma HeaderSettled(t: Tree, t': Tree, b: Block)
    requires t.Settled() && !t.Linked(b)
    requires t' == t.(index := t.index + {b}, nChainTx := t.nChainTx[b := 0], nSequenceId := t.nSequenceId[b := 0])
    requires SeqId(t.nSequenceId, b) == 0
    ensures t'.Settled()
  {
    hide CleanPath, Work;
    assert forall x :: ChainTx(t'.nChainTx, x) == ChainTx(t.nChainTx, x);
    assert forall x :: SeqId(t'.nSequenceId, x) == SeqId(t.nSequenceId, x);
    assert forall x :: t'.Clean(x) == t.Clean(x);
  }

  lemma HeaderNumbered(nChainTx: map<Block, nat>, ids: map<Block, nat>, next: nat, b: Block)
    requires Numbered(nChainTx, ids, next) && ids != map[]
    ensures Numbered(nChainTx[b := 0], ids[b := 0], next)
  {
    var x :| x in ids;
    assert next > ids[x];
    assert forall y :: y != b ==> ChainTx(nChainTx[b := 0], y) == ChainTx(nChainTx, y);
  }

  lemma HeaderShaped(index: set<Block>, addr: Block -> int, b: Block)
    requires TreeShaped(index, addr) && b.Block? && b.pprev in index && b.proof >= 1
    requires forall a | a in index :: addr(a) != addr(b)
    ensures TreeShaped(index + {b}, addr)
  {
    forall x | x in index + {b} ensures Rooted(index + {b}, x) {
      assert x != b ==> Rooted(index, x);
    }
  }

  lemma HeaderSummed(index: set<Block>, data: map<Block, nat>, nChainTx: map<Block, nat>, ids: map<Block, nat>, b: Block)
    requires Summed(index, data, nChainTx, ids) && b !in index
    ensures Summed(index + {b}, data, nChainTx[b := 0], ids[b := 0])
  {
    assert forall x :: ChainTx(nChainTx[b := 0], x) == ChainTx(nChainTx, x);
    forall x | x in index + {b} ensures SumAt(data, nChainTx[b := 0], x) {
      assert x != b ==> SumAt(data, nChainTx, x);
    }
  }

  lemma MarkedFailed(t: Tree, t': Tree, b: Block)
    requires t.Inv() && t.Settled() && b in t.index && b !in t.data
    requires t' == t.(failedValid := t.failedValid + {b})
    ensures t'.Inv() && t'.Settled()
  {
    FailuresGrow(t, t');
    assert SumAt(t.data, t.nChainTx, Genesis);
    forall x | x in t'.failedChild ensures BelowFailed(t'.failedValid, x) {
      assert BelowFailed(t.failedValid, x);
    }
  }

  lemma MoreData(t: Tree, t': Tree, x: Block)
    requires t.data.Keys <= t'.data.Keys && t.verdict == t'.verdict && t.Connected(x)
    ensures t'.Connected(x)
  {
  }

  lemma DataStored(t: Tree, t': Tree, b: Block, nTx: nat)
    requires t.Inv() && t.Settled() && b in t.index && b !in t.data && b !in t.failedValid && nTx >= 1
    requires t' == t.(data := t.data[b := nTx])
    ensures t'.Core() && t'.Settled() && t'.Waiting({b}) && !t'.Linked(b) && b != Genesis && b.pprev in t.index
    ensures forall e | e in t.unlinked :: e.1 != b
  {
    assert SumAt(t.data, t.nChainTx, Genesis) && SumAt(t.data, t.nChainTx, b) && Rooted(t.index, b);
    forall x | x in t'.index ensures SumAt(t'.data, t'.nChainTx, x) {
      assert SumAt(t.data, t.nChainTx, x);
    }
    MoreData(t, t', t.tip);
    assert forall x :: t'.Clean(x) == t.Clean(x);
  }

  /** One round of the breadth-first relinking: b leaves the queue, what waited for it enters. */
  function LinkOne(t: Tree, b: Block, id: nat): Tree
    requires b in t.data && b != Genesis
  {
    var t1 := t.(nChainTx := t.nChainTx[b := ChainTx(t.nChainTx, b.pprev) + t.data[b]], nSequenceId := t.nSequenceId[b := id]);
    t1.(candidates := if t1.Worse(b, t.tip) then t.candidates else t.candidates + {b},
        unlinked := set e | e in t.unlinked && e.0 != b)
  }

  lemma LinkOneCore(t: Tree, b: Block, id: nat)
    requires t.Core() && b in t.data && b != Genesis && !t.Linked(b) && t.Linked(b.pprev)
    ensures LinkOne(t, b, id).Core()
  {
    var t' := LinkOne(t, b, id);
    LinkOneSummed(t, b, id);
    assert b in t.index;
    hide TreeShaped, Summed, ConnectedPath, Before, Tree.Marked;
    MarkedStays(t, t');
    LinkedStays(t, t', b);
  }

  /** Linked blocks stay linked when one more is. */
  lemma LinkedStays(t: Tree, t': Tree, b: Block)
    requires (forall c | c in t.candidates :: c in t.index && t.Linked(c)) && t.Linked(t.tip) && b in t.index && t'.index == t.index
    requires t'.tip == t.tip && t'.candidates <= t.candidates + {b} && t'.Linked(b) && t'.nChainTx == t.nChainTx[b := ChainTx(t'.nChainTx, b)]
    ensures (forall c | c in t'.candidates :: c in t'.index && t'.Linked(c)) && t'.Linked(t'.tip)
  {
  }

  lemma MarkedStays(t: Tree, t': Tree)
    requires t.Marked() && t' == t.(nChainTx := t'.nChainTx, nSequenceId := t'.nSequenceId, candidates := t'.candidates, unlinked := t'.unlinked)
    ensures t'.Marked()
  {
    hide BelowFailed;
  }

  lemma LinkOneSummed(t: Tree, b: Block, id: nat)
    requires t.Core() && b in t.data && b != Genesis && !t.Linked(b) && t.Linked(b.pprev)
    ensures var t' := LinkOne(t, b, id); Summed(t'.index, t'.data, t'.nChainTx, t'.nSequenceId)
  {
    var t' := LinkOne(t, b, id);
    assert forall x :: x != b ==> ChainTx(t'.nChainTx, x) == ChainTx(t.nChainTx, x);
    assert b in t.index;
    forall x | x in t'.index ensures SumAt(t'.data, t'.nChainTx, x) {
      assert SumAt(t.data, t.nChainTx, x);
    }
  }

  /** The block linked now gets an id above all others; it is a candidate only if it has more work than the tip. */
  lemma LinkOneNumbered(t: Tree, b: Block, next: nat)
    requires t.Core() && b in t.data && b != Genesis && !t.Linked(b) && t.Linked(b.pprev)
    requires Numbered(t.nChainTx, t.nSequenceId, next) && FirstSeen(t.candidates, t.tip)
    ensures var t' := LinkOne(t, b, next); Numbered(t'.nChainTx, t'.nSequenceId, next + 1) && FirstSeen(t'.candidates, t'.tip)
  {
    hide TreeShaped, ConnectedPath, Work, Tree.Marked;
    var t' := LinkOne(t, b, next);
    assert forall x :: x != b ==> ChainTx(t'.nChainTx, x) == ChainTx(t.nChainTx, x);
    assert t.tip != b && t.tip in t.nSequenceId;
  }

  lemma LinkOneSettled(t: Tree, b: Block, id: nat)
    requires t.Core() && t.Settled() && b in t.data && b != Genesis && !t.Linked(b) && t.Linked(b.pprev)
    ensures LinkOne(t, b, id).Settled()
  {
    assert b in t.index && t.tip != b;
    hide TreeShaped, Summed, CleanPath, BelowFailed, ConnectedPath, Work;
    var t' := LinkOne(t, b, id);
    assert forall x :: x != b ==> ChainTx(t'.nChainTx, x) == ChainTx(t.nChainTx, x);
    assert forall x :: x != b ==> SeqId(t'.nSequenceId, x) == SeqId(t.nSequenceId, x);
    forall x | x in t'.index && t'.Linked(x) && t'.Clean(x) && !t'.Worse(x, t'.tip) ensures x in t'.candidates {
      assert x != b ==> t.Linked(x) && t.Clean(x) && !t.Worse(x, t.tip);
    }
  }

  lemma LinkOneWaiting(t: Tree, b: Block, id: nat, pending: set<Block>, pending': set<Block>)
    requires t.Core() && t.Waiting(pending) && b in pending && b in t.data && b != Genesis && !t.Linked(b) && t.Linked(b.pprev)
    requires forall c :: c in pending' <==> (c in pending && c != b) || (b, c) in t.unlinked
    ensures LinkOne(t, b, id).Waiting(pending')
  {
    var t' := LinkOne(t, b, id);
    assert forall x :: x != b ==> ChainTx(t'.nChainTx, x) == ChainTx(t.nChainTx, x);
    forall e | e in t'.unlinked ensures e.1 !in pending' {
      assert forall d | d in t.unlinked && d.1 == e.1 :: d.0 == e.0;
    }
    forall x | x in t'.data && !t'.Linked(x) && x != Genesis && !t'.Failed(x.pprev) ensures (x.pprev, x) in t'.unlinked || x in pending' {
    }
  }

  ghost function Elements(q: seq<Block>): set<Block> {
    set b | b in q
  }

  /** The queue of the relinking: distinct blocks with data, not linked yet, whose parent is. */
  ghost predicate QueueOk(t: Tree, q: seq<Block>) {
    && (forall i, j | 0 <= i < j < |q| :: q[i] != q[j])
    && (forall b | b in q :: b in t.data && b != Genesis && !t.Linked(b) && t.Linked(b.pprev))
  }

  lemma RelinkStep(t: Tree, q: seq<Block>, children: seq<Block>, id: nat)
    requires q != [] && q[0] in t.data && q[0] != Genesis
    requires t.Core() && t.Settled() && t.Waiting(Elements(q)) && QueueOk(t, q)
    requires forall c :: c in children <==> (q[0], c) in t.unlinked
    requires forall i, j | 0 <= i < j < |children| :: children[i] != children[j]
    ensures var t', q' := LinkOne(t, q[0], id), q[1..] + children;
            t'.Core() && t'.Settled() && t'.Waiting(Elements(q')) && QueueOk(t', q')
  {
    var b, t', q' := q[0], LinkOne(t, q[0], id), q[1..] + children;
    LinkOneCore(t, b, id);
    LinkOneSettled(t, b, id);
    assert forall c | c in q && c != b :: c in q[1..];
    LinkOneWaiting(t, b, id, Elements(q), Elements(q'));
    QueueStep(t, q, children, id);
  }

  lemma QueueStep(t: Tree, q: seq<Block>, children: seq<Block>, id: nat)
    requires t.Waiting(Elements(q)) && QueueOk(t, q) && q != [] && q[0] in t.data && q[0] != Genesis
    requires forall c :: c in children <==> (q[0], c) in t.unlinked
    requires forall i, j | 0 <= i < j < |children| :: children[i] != children[j]
    ensures QueueOk(LinkOne(t, q[0], id), q[1..] + children)
  {
    var b, t', rest := q[0], LinkOne(t, q[0], id), q[1..];
    assert b in q;
    forall c | c in children ensures c in t.data && c != Genesis && !t.Linked(c) && c.pprev == b && c !in q {
      var e := (b, c);
      assert e in t.unlinked && e.1 == c;
    }
    assert forall c | c in rest :: c in q && c != b;
    assert forall x :: x != b ==> ChainTx(t'.nChainTx, x) == ChainTx(t.nChainTx, x);
  }

  /** Data under a parent that is not linked: it waits, unless the parent is marked failed. */
  lemma DataDeferred(t: Tree, t': Tree, b: Block)
    requires t.Core() && t.Settled() && t.Waiting({b}) && b in t.data && b != Genesis && !t.Linked(b) && !t.Linked(b.pprev)
    requires t' == if t.Failed(b.pprev) then t else t.(unlinked := t.unlinked + {(b.pprev, b)})
    ensures t'.Inv() && t'.Settled()
  {
  }

  // ---------- what each step towards the best chain does ----------

  /** While the best chain is being activated: `best` is the best tip there has been. */
  ghost predicate Acting(t: Tree, best: Block) {
    && t.Inv()
    && best in t.index && t.Linked(best) && t.Connected(best) && t.Complete(best)
    && (t.tip == best || t.Worse(t.tip, best))
    && (t.tip == best ==> t.NoneWorse(t.tip))
  }

  lemma BestIsCandidate(t: Tree, best: Block)
    requires Acting(t, best)
    ensures best in t.candidates
  {
    ConnectedIsClean(t, best);
    WorseIsStrictOrder(t, best, best, best);
  }

  lemma ChainRemoved(t: Tree, t': Tree, best: Block, bad: Block)
    requires Acting(t, best) && t.Failed(bad)
    requires t' == t.(failedChild := t'.failedChild, candidates := t'.candidates)
    requires t.failedChild <= t'.failedChild && t'.candidates <= t.candidates
    requires forall x | x in t'.failedChild - t.failedChild :: x in t.index && IsAncestor(bad, x) && x != bad
    requires forall x | x in t.candidates - t'.candidates :: IsAncestor(bad, x)
    ensures Acting(t', best)
  {
    FailuresGrow(t, t');
    MoreMarked(t, t', bad);
    NotClean(t, bad);
    hide TreeShaped, Summed, ConnectedPath, CleanPath, BelowFailed, Before, Tree.Waiting, IsAncestor, Tree.Marked;
    forall x | x in t'.index && t'.Linked(x) && t'.Clean(x) && !t'.Worse(x, best) ensures x in t'.candidates {
      assert t.Clean(x) && (x !in t'.candidates ==> IsAncestor(bad, x));
    }
    WaitingStays(t, t');
  }

  lemma NotClean(t: Tree, bad: Block)
    requires t.Failed(bad)
    ensures forall x | IsAncestor(bad, x) :: !t.Clean(x)
  {
  }

  /** Fewer parents without failure mark: what waits still does. */
  lemma WaitingStays(t: Tree, t': Tree)
    requires t.Waiting({}) && t' == t.(failedValid := t'.failedValid, failedChild := t'.failedChild, candidates := t'.candidates)
    requires t.failedValid <= t'.failedValid && t.failedChild <= t'.failedChild
    ensures t'.Waiting({})
  {
  }

  lemma MoreMarked(t: Tree, t': Tree, bad: Block)
    requires t.Marked() && t.Failed(bad) && t' == t.(failedChild := t'.failedChild, candidates := t'.candidates)
    requires forall x | x in t'.failedChild - t.failedChild :: x in t.index && IsAncestor(bad, x) && x != bad
    ensures t'.Marked()
  {
    forall x | x in t'.failedChild ensures x in t'.index && BelowFailed(t'.failedValid, x) {
      if x in t.failedChild {
        assert BelowFailed(t.failedValid, x);
      } else {
        BelowBad(t, bad, x);
      }
    }
  }

  lemma CleanItself(t: Tree, b: Block)
    ensures t.Clean(b) ==> !t.Failed(b)
  {
    assert IsAncestor(b, b);
  }

  lemma BelowBad(t: Tree, bad: Block, x: Block)
    requires t.Marked() && t.Failed(bad) && IsAncestor(bad, x) && x != bad
    ensures BelowFailed(t.failedValid, x)
  {
    if bad !in t.failedValid {
      assert BelowFailed(t.failedValid, bad);
      var a :| IsAncestor(a, bad) && a != bad && a in t.failedValid;
      AncestorTransitive(a, bad, x);
    }
  }

  lemma TipDisconnected(t: Tree, t': Tree, best: Block)
    requires Acting(t, best) && t.tip != Genesis && t' == t.(tip := t.tip.pprev)
    ensures Acting(t', best)
  {
    ConnectedBelow(t, t.tip);
    assert SumAt(t.data, t.nChainTx, t.tip) && Rooted(t.index, t.tip);
    WorseIsStrictOrder(t, t'.tip, t.tip, best);
    WorseIsStrictOrder(t, best, best, best);
  }

  lemma TipRejected(t: Tree, t': Tree, best: Block, b: Block)
    requires Acting(t, best) && b in t.index && b != Genesis && t.verdict(b) == Reject
    requires t' == t.(failedValid := t.failedValid + {b}, candidates := t.candidates - {b})
    ensures Acting(t', best)
  {
    FailuresGrow(t, t');
    CleanItself(t', b);
    RejectedMarked(t, t', b);
    WaitingStays(t, t');
    hide TreeShaped, Summed, ConnectedPath, CleanPath, Before, Tree.Waiting, Tree.Marked;
    assert t'.Complete(best) by {
      forall x | x in t'.index && t'.Linked(x) && t'.Clean(x) && !t'.Worse(x, best) ensures x in t'.candidates {
        assert t.Clean(x);
      }
    }
    hide Tree.Complete;
  }

  lemma RejectedMarked(t: Tree, t': Tree, b: Block)
    requires t.Marked() && b in t.index && b != Genesis && t.verdict(b) == Reject
    requires t' == t.(failedValid := t.failedValid + {b}, candidates := t'.candidates)
    ensures t'.Marked()
  {
    FailuresGrow(t, t');
    hide BelowFailed;
    forall x | x in t'.failedChild ensures BelowFailed(t'.failedValid, x) {
      assert BelowFailed(t.failedValid, x);
    }
  }

  function BetterOf(t: Tree, a: Block, b: Block): Block {
    if t.Worse(a, b) then b else a
  }

  lemma TipConnected(t: Tree, t': Tree, best: Block, b: Block)
    requires Acting(t, best) && b in t.index && t.Linked(b) && b != Genesis && b.pprev == t.tip && t.verdict(b) == Accept
    requires t' == t.(tip := b, candidates := set c | c in t.candidates && !t.Worse(c, b))
    ensures Acting(t', BetterOf(t, best, b))
  {
    var best' := BetterOf(t, best, b);
    LinkedBelow(t, b, b);
    ConnectedBelow(t, b);
    WorseIsStrictOrder(t, best, b, b);
    forall x | x in t'.index && t'.Linked(x) && t'.Clean(x) && !t'.Worse(x, best') ensures x in t'.candidates {
      assert t.Clean(x);
      WorseIsStrictOrder(t, x, best, best');
      WorseIsStrictOrder(t, x, b, best');
    }
  }

  /** A tip no worse than the best tip so far: the candidate rule holds again. */
  lemma ActingDone(t: Tree, best: Block)
    requires Acting(t, best) && !t.Worse(t.tip, best)
    ensures t.Inv() && t.Settled() && t.tip == best && t.Clean(t.tip)
  {
    ConnectedIsClean(t, t.tip);
  }
}
