/**
 The active chain vector, block locators and fork finding (src/chain.cpp, src/chain.h:468-540,
 src/main.cpp:574-586).
 */
module Chain {
  import opened Options
  import opened Arithmetic
  import opened BlockIndex

  /** Entry i holds the tip's ancestor at height i. */
  ghost predicate IsPathTo(v: seq<Option<Block>>, tip: Block) {
    |v| == Height(tip) + 1 && forall i | 0 <= i < |v| :: v[i] == Some(Ancestor(tip, i))
  }

  ghost predicate IsChain(v: seq<Option<Block>>) {
    v == [] || (v[|v| - 1].Some? && SkipBuilt(v[|v| - 1].value) && IsPathTo(v, v[|v| - 1].value))
  }

  function Hash(b: Block): nat {
    if b == Genesis then 0 else b.hash
  }

  /** An entry the early stop of SetTip leaves alone already agrees with the new tip, and so do all below it. */
  lemma KeptPart(before: seq<Option<Block>>, tip: Block, h: nat)
    requires IsChain(before) && h <= Height(tip)
    requires h < |before| && before[h] == Some(Ancestor(tip, h))
    ensures forall i | 0 <= i <= h :: before[i] == Some(Ancestor(tip, i))
  {
    var last := before[|before| - 1].value;
    forall i | 0 <= i <= h ensures before[i] == Some(Ancestor(tip, i)) {
      AncestorOfAncestor(last, h, i);
      AncestorOfAncestor(tip, h, i);
    }
  }

  /** Going down from a block outside the other's chain keeps their last common block. */
  lemma {:induction false} LowerOne(a: Block, tip: Block)
    requires !IsAncestor(a, tip)
    ensures a.Block? && LastCommon(a.pprev, tip) == LastCommon(a, tip)
    decreases Height(a) + Height(tip)
  {
    if a == Genesis {
      assert false;
    } else if Height(a) > Height(tip) {
    } else if Height(tip) > Height(a) {
      LowerOne(a, tip.pprev);
    }
  }

  class CChain {
    var vChain: seq<Option<Block>>

    ghost predicate Valid() reads this { IsChain(vChain) }

    lemma TipBuilt()
      requires Valid()
      ensures Tip().Some? ==> SkipBuilt(Tip().value)
    {
    }

    function Tip(): Option<Block>
      reads this
    {
      if vChain == [] then None else vChain[|vChain| - 1]
    }

    function At(h: int): Option<Block>
      reads this
    {
      if h < 0 || h >= |vChain| then None else vChain[h]
    }

    /** A block is in the chain exactly when it is the tip or one of its ancestors. */
    predicate Contains(b: Block)
      requires Valid()
      reads this
      ensures Contains(b) <==> Tip().Some? && IsAncestor(b, Tip().value)
    {
      At(Height(b)) == Some(b)
    }

    constructor ()
      ensures Valid() && vChain == []
    {
      vChain := [];
    }

    /** Only entries above the fork are rewritten, and still every entry is right. */
    method SetTip(pindex: Option<Block>)
      requires Valid()
      requires pindex.Some? ==> SkipBuilt(pindex.value)
      modifies this
      ensures Valid()
      ensures pindex == None ==> vChain == []
      ensures pindex.Some? ==> IsPathTo(vChain, pindex.value)
    {
      if pindex == None {
        vChain := [];
        return;
      }
      var tip := pindex.value;
      var before := vChain;
      vChain := seq(Height(tip) + 1, i requires 0 <= i => if i < |before| then before[i] else None);
      var walk := pindex;
      var h := Height(tip);
      while walk.Some? && vChain[h] != walk
        invariant -1 <= h <= Height(tip) && |vChain| == Height(tip) + 1
        invariant walk == if h < 0 then None else Some(Ancestor(tip, h))
        invariant forall i | h < i <= Height(tip) :: vChain[i] == Some(Ancestor(tip, i))
        invariant forall i | 0 <= i <= h :: vChain[i] == if i < |before| then before[i] else None
        decreases h
      {
        vChain := vChain[h := walk];
        if h > 0 {
          StepDown(tip, h);
        }
        walk := if walk.value == Genesis then None else Some(walk.value.pprev);
        h := h - 1;
      }
      if h >= 0 {
        KeptPart(before, tip, h);
      }
    }

    /** The last common block of the chain and an index entry. */
    method FindFork(b: Block) returns (r: Option<Block>)
      requires Valid() && SkipBuilt(b)
      ensures r == if Tip() == None then None else Some(LastCommon(b, Tip().value))
    {
      r := Some(b);
      if Height(b) > |vChain| - 1 {
        r := GetAncestor(b, |vChain| - 1);
        if vChain != [] {
          LastCommonLow(b, Tip().value);
          LastCommonAt(b, Tip().value, |vChain| - 1);
        }
      }
      while r.Some? && !Contains(r.value)
        invariant Tip().Some? ==> r.Some? && LastCommon(r.value, Tip().value) == LastCommon(b, Tip().value)
        decreases if r.Some? then Height(r.value) + 1 else 0
      {
        if Tip().Some? {
          LowerOne(r.value, Tip().value);
        }
        r := if r.value == Genesis then None else Some(r.value.pprev);
      }
      if Tip().Some? {
        LastCommonOfAncestor(r.value, Tip().value);
      }
    }

    /** The ancestor at a height, by the chain vector where that applies and by the skip list elsewhere. */
    method Lower(b: Block, h: nat) returns (r: Block)
      requires Valid() && SkipBuilt(b) && h <= Height(b)
      ensures r == Ancestor(b, h) && SkipBuilt(r)
    {
      SkipBuiltBelow(b, h);
      if Contains(b) {
        AncestorOfAncestor(Tip().value, Height(b), h);
        r := At(h).value;
      } else {
        var found := GetAncestor(b, h);
        r := found.value;
      }
    }

    /** The hashes of blocks at growing depths below the given block (by default the tip), down to genesis. */
    method GetLocator(pindex: Option<Block>) returns (vHave: seq<nat>)
      requires Valid()
      requires pindex.Some? ==> SkipBuilt(pindex.value)
      ensures var b := if pindex == None then Tip() else pindex;
              if b == None then vHave == [] else IsLocator(vHave, b.value)
    {
      hide LocatorPrefix, IsLocator, Ancestor, Hash, SkipBuilt;
      var walk := if pindex == None then Tip() else pindex;
      var nStep := 1;
      vHave := [];
      if walk == None {
        return;
      }
      var b := walk.value;
      var pindexWalk := b;
      TipBuilt();
      PrefixStart(b);
      while true
        invariant SkipBuilt(pindexWalk) && LocatorPrefix(vHave, b, pindexWalk, nStep)
        decreases Height(pindexWalk)
      {
        PrefixPush(vHave, b, pindexWalk, nStep);
        vHave := vHave + [Hash(pindexWalk)];
        if Height(pindexWalk) == 0 {
          break;
        }
        pindexWalk := Lower(pindexWalk, if Height(pindexWalk) - nStep > 0 then Height(pindexWalk) - nStep else 0);
        if |vHave| > 10 {
          nStep := nStep * 2;
        }
      }
    }

    /** The first locator entry that is indexed and in this chain, or genesis. */
    method FindForkInGlobalIndex(index: map<nat, Block>, vHave: seq<nat>) returns (r: Option<Block>)
      requires Valid()
      ensures forall k | 0 <= k < |vHave| && Hit(index, vHave[k]) && (forall j | 0 <= j < k :: !Hit(index, vHave[j])) ::
                r == Some(index[vHave[k]])
      ensures (forall k | 0 <= k < |vHave| :: !Hit(index, vHave[k])) ==> r == At(0)
    {
      for k := 0 to |vHave|
        invariant forall j | 0 <= j < k :: !Hit(index, vHave[j])
      {
        if vHave[k] in index {
          if Contains(index[vHave[k]]) {
            return Some(index[vHave[k]]);
          }
        }
      }
      return At(0);
    }

    predicate Hit(index: map<nat, Block>, h: nat)
      requires Valid()
      reads this
    {
      h in index && Contains(index[h])
    }
  }

  lemma LastCommonOfAncestor(a: Block, b: Block)
    requires IsAncestor(a, b)
    ensures LastCommon(a, b) == a
  {
    LastCommonIsLast(a, b, a);
  }

  // ---------- locators ----------

  /** How far below the starting block the k-th locator entry lies: eleven single steps, then doubling ones. */
  function Depth(k: nat): nat {
    if k <= 11 then k else 9 + Pow2(k - 10)
  }

  function AtDepth(b: Block, d: nat): (r: Block)
    ensures Height(r) == if d <= Height(b) then Height(b) - d else 0
  {
    Ancestor(b, if d <= Height(b) then Height(b) - d else 0)
  }

  /** The hashes of the ancestors of b at the depths of a locator. */
  ghost predicate Lists(vHave: seq<nat>, b: Block) {
    forall k {:trigger vHave[k]} | 0 <= k < |vHave| :: vHave[k] == Hash(AtDepth(b, Depth(k)))
  }

  /** The first n of these depths are above genesis. */
  ghost predicate AboveGenesis(n: int, b: Block) {
    forall k {:trigger Depth(k)} | 0 <= k < n :: Depth(k) < Height(b)
  }

  /** Strictly descending ancestors of b from b itself to genesis. */
  ghost predicate IsLocator(vHave: seq<nat>, b: Block) {
    vHave != [] && Lists(vHave, b) && AboveGenesis(|vHave| - 1, b) && Depth(|vHave| - 1) >= Height(b)
  }

  /** The loop of GetLocator after |vHave| entries, about to list `walk` and then go nStep further. */
  ghost predicate LocatorPrefix(vHave: seq<nat>, b: Block, walk: Block, nStep: int) {
    && Lists(vHave, b) && AboveGenesis(|vHave|, b)
    && walk == AtDepth(b, Depth(|vHave|))
    && nStep == if |vHave| <= 10 then 1 else Pow2(|vHave| - 10)
  }

  lemma PrefixStart(b: Block)
    ensures LocatorPrefix([], b, b, 1)
  {
  }

  lemma DepthStep(n: nat)
    ensures Depth(n + 1) == Depth(n) + (if n <= 10 then 1 else Pow2(n - 10))
    ensures n >= 10 ==> Pow2(n + 1 - 10) == 2 * Pow2(n - 10)
  {
    if n > 10 {
      assert n + 1 - 10 - 1 == n - 10;
    }
  }

  lemma PrefixPush(vHave: seq<nat>, b: Block, walk: Block, nStep: int)
    requires LocatorPrefix(vHave, b, walk, nStep)
    ensures Height(walk) == 0 ==> IsLocator(vHave + [Hash(walk)], b)
    ensures nStep >= 1
    ensures Height(walk) > 0 ==>
              var next := Ancestor(walk, if Height(walk) - nStep > 0 then Height(walk) - nStep else 0);
              LocatorPrefix(vHave + [Hash(walk)], b, next, if |vHave| >= 10 then nStep * 2 else nStep)
  {
    hide Depth, AtDepth, Lists, AboveGenesis;
    var n := |vHave|;
    DepthStep(n);
    NextDepth(b, Depth(n), nStep);
    ListsMore(vHave, b, walk);
    if Height(walk) > 0 {
      AboveMore(n, b);
    }
  }

  lemma AboveMore(n: nat, b: Block)
    requires AboveGenesis(n, b) && Depth(n) < Height(b)
    ensures AboveGenesis(n + 1, b)
  {
    hide Depth;
  }

  /** One more entry is listed. */
  lemma ListsMore(vHave: seq<nat>, b: Block, walk: Block)
    requires Lists(vHave, b) && walk == AtDepth(b, Depth(|vHave|))
    ensures Lists(vHave + [Hash(walk)], b)
  {
    hide AtDepth, Depth, Hash;
    var v := vHave + [Hash(walk)];
    forall k | 0 <= k < |v| ensures v[k] == Hash(AtDepth(b, Depth(k))) {
      assert k < |vHave| ==> v[k] == vHave[k];
    }
  }

  /** Going down by a step from some depth. */
  lemma NextDepth(b: Block, d: nat, nStep: int)
    requires nStep >= 1
    ensures var walk := AtDepth(b, d);
            if Height(walk) == 0 then d >= Height(b) else d < Height(b) && Ancestor(walk, if Height(walk) - nStep > 0 then Height(walk) - nStep else 0) == AtDepth(b, d + nStep)
  {
    var walk := AtDepth(b, d);
    if Height(walk) > 0 {
      AncestorOfAncestor(b, Height(walk), if Height(walk) - nStep > 0 then Height(walk) - nStep else 0);
    }
  }

  lemma {:induction false} DepthGrows(j: nat, k: nat)
    requires j < k
    ensures Depth(j) < Depth(k)
    decreases k
  {
    if j < k - 1 {
      DepthGrows(j, k - 1);
    }
  }

  /** At most 12 + log2(height) entries, each strictly below the one before, the last one genesis. */
  lemma LocatorShape(vHave: seq<nat>, b: Block)
    requires IsLocator(vHave, b)
    ensures |vHave| > 12 ==> Pow2(|vHave| - 12) <= Height(b)
    ensures forall j, k | 0 <= j < k < |vHave| :: Height(AtDepth(b, Depth(k))) < Height(AtDepth(b, Depth(j)))
    ensures vHave[0] == Hash(b) && vHave[|vHave| - 1] == Hash(Genesis)
  {
    forall j, k | 0 <= j < k < |vHave| ensures Height(AtDepth(b, Depth(k))) < Height(AtDepth(b, Depth(j))) {
      DepthGrows(j, k);
    }
    assert AtDepth(b, Depth(|vHave| - 1)) == Genesis;
    if |vHave| > 12 {
      assert Depth(|vHave| - 2) < Height(b);
    }
  }

  lemma ListedAt(vHave: seq<nat>, b: Block, k: nat)
    requires IsLocator(vHave, b) && k < |vHave|
    ensures vHave[k] == Hash(AtDepth(b, Depth(k))) && (k < |vHave| - 1 ==> Depth(k) < Height(b))
  {
    hide AtDepth, Depth;
  }

  /** The hash of a block identifies it: this is what an index keyed by hash relies on. */
  ghost predicate Identifies(index: map<nat, Block>, b: Block) {
    forall h: nat | h <= Height(b) && Hash(Ancestor(b, h)) in index ::
      index[Hash(Ancestor(b, h))] == Ancestor(b, h)
  }

  ghost predicate Indexed(index: map<nat, Block>, b: Block) {
    forall h: nat | h <= Height(b) :: Hash(Ancestor(b, h)) in index && index[Hash(Ancestor(b, h))] == Ancestor(b, h)
  }

  /** A locator of any block against any chain with indexed blocks: the fork found is a common ancestor, the
      true fork when that is at most 11 blocks below the located block, and otherwise at less than twice its depth. */
  lemma ForkFoundIsClose(index: map<nat, Block>, vHave: seq<nat>, b: Block, tip: Block, k: nat)
    requires IsLocator(vHave, b) && Identifies(index, b) && Indexed(index, tip)
    requires k < |vHave| && vHave[k] in index && IsAncestor(index[vHave[k]], tip)
    requires forall j | 0 <= j < k :: !(vHave[j] in index && IsAncestor(index[vHave[j]], tip))
    ensures var r, fork := index[vHave[k]], LastCommon(b, tip);
            var found, depth := Height(b) - Height(r), Height(b) - Height(fork);
            && IsAncestor(r, b) && IsAncestor(r, tip) && IsAncestor(r, fork)
            && (depth <= 11 ==> r == fork)
            && (depth > 11 ==> found < 2 * depth)
  {
    var r, fork := index[vHave[k]], LastCommon(b, tip);
    var depth := Height(b) - Height(fork);
    ListedAt(vHave, b, k);
    assert r == AtDepth(b, Depth(k));
    LastCommonIsLast(b, tip, r);
    if k > 0 {
      ListedAt(vHave, b, k - 1);
      var above := AtDepth(b, Depth(k - 1));
      if Depth(k - 1) >= depth {
        AncestorsOrdered(above, fork, b);
        AncestorTransitive(above, fork, tip);
        assert false;
      }
    }
  }
}
