/**
 Block index entries: the tree of blocks hanging from genesis, ancestors, the skip list
 (src/chain.h, src/main.cpp:3528-3575) and last common ancestors (src/main.cpp:434-452).

 An entry's parent never changes after AddToBlockIndex, so an entry is a value that holds its
 parent; what does change (flags, counters) is kept beside it by the modules that change it.
 */
module BlockIndex {
  import opened Options

  /** `proof` is the work of the block itself, `hash` its identity. */
  datatype Block = Genesis | Block(pprev: Block, pskip: Block, hash: nat, proof: nat, time: int)

  function Height(b: Block): nat {
    if b == Genesis then 0 else Height(b.pprev) + 1
  }

  /** The ancestor reached by walking pprev: the specification of GetAncestor. */
  function Ancestor(b: Block, h: nat): (r: Block)
    requires h <= Height(b)
    ensures Height(r) == h
  {
    if h == Height(b) then b else Ancestor(b.pprev, h)
  }

  predicate IsAncestor(a: Block, b: Block) {
    Height(a) <= Height(b) && Ancestor(b, Height(a)) == a
  }

  lemma {:induction false} AncestorOfAncestor(b: Block, h: nat, k: nat)
    requires k <= h <= Height(b)
    ensures Ancestor(Ancestor(b, h), k) == Ancestor(b, k)
  {
    if h < Height(b) {
      AncestorOfAncestor(b.pprev, h, k);
    }
  }

  lemma {:induction false} StepDown(tip: Block, h: nat)
    requires 0 < h <= Height(tip)
    ensures Ancestor(tip, h).Block? && Ancestor(tip, h).pprev == Ancestor(tip, h - 1)
  {
    if h < Height(tip) {
      StepDown(tip.pprev, h);
    }
  }

  lemma AncestorTransitive(a: Block, b: Block, c: Block)
    requires IsAncestor(a, b) && IsAncestor(b, c)
    ensures IsAncestor(a, c)
  {
    AncestorOfAncestor(c, Height(b), Height(a));
  }

  /** Ancestors of one block are ancestors of each other. */
  lemma AncestorsOrdered(a: Block, b: Block, c: Block)
    requires IsAncestor(a, c) && IsAncestor(b, c) && Height(a) <= Height(b)
    ensures IsAncestor(a, b)
  {
    AncestorOfAncestor(c, Height(b), Height(a));
  }

  // ---------- the skip list ----------

  /** Bitwise and of two non-negative ints. */
  function BitAnd(a: nat, b: nat): (r: nat)
    ensures r <= a && r <= b
  {
    if a == 0 || b == 0 then 0
    else 2 * BitAnd(a / 2, b / 2) + (if a % 2 == 1 && b % 2 == 1 then 1 else 0)
  }

  function InvertLowestOne(n: nat): nat {
    if n == 0 then 0 else BitAnd(n, n - 1)
  }

  lemma {:induction false} BitAndSelf(n: nat)
    ensures BitAnd(n, n) == n
  {
    if n > 0 {
      BitAndSelf(n / 2);
    }
  }

  /** The lowest power of two in the binary representation. */
  function LowestOne(n: nat): (r: nat)
    requires n > 0
    ensures 1 <= r <= n
  {
    if n % 2 == 1 then 1 else 2 * LowestOne(n / 2)
  }

  /** InvertLowestOne turns exactly the lowest one bit into a zero. */
  lemma {:induction false} ClearsLowestOne(n: nat)
    requires n > 0
    ensures InvertLowestOne(n) == n - LowestOne(n)
  {
    if n % 2 == 1 {
      assert (n - 1) / 2 == n / 2;
      BitAndSelf(n / 2);
    } else {
      assert (n - 1) / 2 == n / 2 - 1;
      ClearsLowestOne(n / 2);
    }
  }

  function GetSkipHeight(height: nat): (r: nat)
    ensures height > 0 ==> r < height
    ensures height == 0 ==> r == 0
  {
    if height < 2 then 0
    else if height % 2 == 1 then InvertLowestOne(InvertLowestOne(height - 1)) + 1
    else InvertLowestOne(height)
  }

  /** How many one bits a number has. */
  function Ones(n: nat): nat {
    if n == 0 then 0 else Ones(n / 2) + n % 2
  }

  lemma {:induction false} ClearsOne(n: nat)
    ensures n > 0 ==> Ones(InvertLowestOne(n)) == Ones(n) - 1
    ensures n % 2 == 0 ==> InvertLowestOne(n) % 2 == 0
  {
    if n > 0 {
      ClearsLowestOne(n);
      if n % 2 == 0 {
        ClearsLowestOne(n / 2);
        ClearsOne(n / 2);
        assert InvertLowestOne(n) == 2 * InvertLowestOne(n / 2);
      }
    }
  }

  /** How many skip pointers lead from a height down to genesis. */
  function SkipsToGenesis(height: nat): nat {
    if height == 0 then 0 else 1 + SkipsToGenesis(GetSkipHeight(height))
  }

  /** As many as the height has one bits, and half as many and one more from an odd height: no more than its binary
      length either way. */
  lemma {:induction false} SkipsAreFew(height: nat)
    ensures SkipsToGenesis(height) == if height % 2 == 0 then Ones(height) else 1 + (Ones(height - 1) + 1) / 2
    decreases height
  {
    if height > 1 {
      SkipIs(height);
      SkipsAreFew(GetSkipHeight(height));
      hide GetSkipHeight, Ones;
    } else {
      assert SkipsToGenesis(0) == 0 && GetSkipHeight(1) == 0;
    }
  }

  /** A skip from an even height clears one one bit, from an odd height two of those above the lowest. */
  lemma SkipIs(height: nat)
    requires height > 1
    ensures var skip := GetSkipHeight(height);
            && skip % 2 == height % 2 && Ones(height - height % 2) > 0
            && (height % 2 == 0 ==> Ones(skip) == Ones(height) - 1)
            && (height % 2 == 1 ==> Ones(skip - 1) == if Ones(height - 1) > 1 then Ones(height - 1) - 2 else 0)
  {
    hide InvertLowestOne, Ones;
    var n := height - height % 2;
    ClearsOne(n);
    SomeOne(n);
    if height % 2 == 1 {
      ClearsOne(InvertLowestOne(n));
      SomeOne(InvertLowestOne(n));
      InvertZero();
    }
  }

  lemma {:induction false} SomeOne(n: nat)
    ensures Ones(n) > 0 <==> n > 0
  {
    if n > 0 && n % 2 == 0 {
      SomeOne(n / 2);
    }
  }

  lemma InvertZero()
    ensures InvertLowestOne(0) == 0 && Ones(0) == 0
  {
  }

  /** Every skip pointer of the entry and its ancestors was set by BuildSkip. */
  predicate SkipBuilt(b: Block) {
    b == Genesis || (b.pskip == Ancestor(b.pprev, GetSkipHeight(Height(b))) && SkipBuilt(b.pprev))
  }

  lemma {:induction false} SkipBuiltBelow(b: Block, h: nat)
    requires SkipBuilt(b) && h <= Height(b)
    ensures SkipBuilt(Ancestor(b, h))
  {
    if h < Height(b) {
      SkipBuiltBelow(b.pprev, h);
    }
  }

  /** The skip-list walk finds the same block as walking pprev, for every height. */
  method GetAncestor(b: Block, height: int) returns (r: Option<Block>)
    requires SkipBuilt(b)
    ensures r == if 0 <= height <= Height(b) then Some(Ancestor(b, height)) else None
  {
    if height > Height(b) || height < 0 {
      return None;
    }
    var walk := b;
    var heightWalk := Height(b);
    while heightWalk > height
      invariant height <= heightWalk == Height(walk) && SkipBuilt(walk)
      invariant Ancestor(walk, height) == Ancestor(b, height)
    {
      var heightSkip := GetSkipHeight(heightWalk);
      var heightSkipPrev := GetSkipHeight(heightWalk - 1);
      if heightSkip == height
         || (heightSkip > height && !(heightSkipPrev < heightSkip - 2 && heightSkipPrev >= height)) {
        AncestorOfAncestor(walk.pprev, heightSkip, height);
        SkipBuiltBelow(walk.pprev, heightSkip);
        walk := walk.pskip;
        heightWalk := heightSkip;
      } else {
        walk := walk.pprev;
        heightWalk := heightWalk - 1;
      }
    }
    r := Some(walk);
  }

  /** A new entry under a parent, with its skip pointer found through the parent's skip list. */
  method BuildSkip(pprev: Block, hash: nat, proof: nat, time: int) returns (b: Block)
    requires SkipBuilt(pprev)
    ensures SkipBuilt(b) && b.Block? && b.pprev == pprev && b.hash == hash && b.proof == proof && b.time == time
  {
    var skip := GetAncestor(pprev, GetSkipHeight(Height(pprev) + 1));
    b := Block(pprev, skip.value, hash, proof, time);
  }

  // ---------- last common ancestors ----------

  function LastCommon(a: Block, b: Block): Block
    decreases Height(a) + Height(b)
  {
    if a == b then a
    else if Height(a) > Height(b) then LastCommon(a.pprev, b)
    else if Height(b) > Height(a) then LastCommon(a, b.pprev)
    else LastCommon(a.pprev, b.pprev)
  }

  /** It is a common ancestor, and every common ancestor is one of its ancestors. */
  lemma {:induction false} LastCommonIsLast(a: Block, b: Block, c: Block)
    ensures IsAncestor(LastCommon(a, b), a) && IsAncestor(LastCommon(a, b), b)
    ensures IsAncestor(c, a) && IsAncestor(c, b) ==> IsAncestor(c, LastCommon(a, b))
    decreases Height(a) + Height(b)
  {
    if a == b {
    } else if Height(a) > Height(b) {
      LastCommonIsLast(a.pprev, b, c);
    } else if Height(b) > Height(a) {
      LastCommonIsLast(a, b.pprev, c);
    } else {
      LastCommonIsLast(a.pprev, b.pprev, c);
    }
  }

  lemma {:induction false} LastCommonAt(a: Block, b: Block, h: nat)
    requires h <= Height(a) && h <= Height(b) && Height(LastCommon(a, b)) <= h
    ensures LastCommon(Ancestor(a, h), Ancestor(b, h)) == LastCommon(a, b)
    decreases Height(a) + Height(b)
  {
    if h == Height(a) && h == Height(b) {
    } else if a == b {
    } else if Height(a) > Height(b) {
      LastCommonAt(a.pprev, b, h);
    } else if Height(b) > Height(a) {
      LastCommonAt(a, b.pprev, h);
    } else {
      LastCommonAt(a.pprev, b.pprev, h);
    }
  }

  lemma LastCommonLow(a: Block, b: Block)
    ensures Height(LastCommon(a, b)) <= Height(a) && Height(LastCommon(a, b)) <= Height(b)
  {
    LastCommonIsLast(a, b, Genesis);
  }

  /** Level the two blocks with the skip list, then walk both down until they meet. */
  method LastCommonAncestor(a: Block, b: Block) returns (r: Block)
    requires SkipBuilt(a) && SkipBuilt(b)
    ensures r == LastCommon(a, b)
    ensures IsAncestor(r, a) && IsAncestor(r, b)
    ensures forall c | IsAncestor(c, a) && IsAncestor(c, b) :: IsAncestor(c, r)
  {
    var pa, pb := a, b;
    LastCommonLow(a, b);
    if Height(a) > Height(b) {
      var lower := GetAncestor(a, Height(b));
      pa := lower.value;
      LastCommonAt(a, b, Height(b));
    } else if Height(b) > Height(a) {
      var lower := GetAncestor(b, Height(a));
      pb := lower.value;
      LastCommonAt(a, b, Height(a));
    }
    while pa != pb
      invariant Height(pa) == Height(pb)
      invariant LastCommon(pa, pb) == LastCommon(a, b)
      decreases Height(pa)
    {
      pa := pa.pprev;
      pb := pb.pprev;
    }
    r := pa;
    forall c ensures IsAncestor(r, a) && IsAncestor(r, b) && (IsAncestor(c, a) && IsAncestor(c, b) ==> IsAncestor(c, r)) {
      LastCommonIsLast(a, b, c);
    }
  }
}
