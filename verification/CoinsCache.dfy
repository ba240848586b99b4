/**
 Stacks of coin caches (src/coins.cpp:85-206, 262-276; src/txdb.cpp:18-24, 53-72). A view is the database or a
 write-back cache over another view; every stack of them stands for one flat map.
 */
module CoinsCache {
  import opened Coins

  datatype CacheEntry = CacheEntry(coins: CoinsValue, isDirty: bool, isFresh: bool)

  type CoinsMap = map<TxId, CacheEntry>

  /** What a cache makes of the map below it. Entries of pruned coins hide what is below. */
  function Overlay(cache: CoinsMap, below: View): View {
    map h | h in cache.Keys + below.Keys && (h in cache ==> cache[h].coins.vout != []) ::
      if h in cache then cache[h].coins else below[h]
  }

  /** Coins read from a cache are the flat map's, up to what a pruned entry remembers besides its outputs. */
  predicate Agrees(c: CoinsValue, flat: View, h: TxId) {
    if c.vout == [] then h !in flat else h in flat && flat[h] == c
  }

  predicate Unpruned(flat: View) {
    forall h | h in flat :: flat[h].vout != [] && IsClean(flat[h].vout)
  }

  /** `has` are the ids with an entry one level down, `below` is the flat map there. */
  predicate EntryOk(e: CacheEntry, h: TxId, has: set<TxId>, below: View) {
    && IsClean(e.coins.vout)
    && (!e.isDirty ==> Agrees(e.coins, below, h))
    && (e.isFresh ==> h !in below)
    && (!e.isFresh ==> h in has)
  }

  predicate CacheOk(cache: CoinsMap, has: set<TxId>, below: View) {
    forall h | h in cache :: EntryOk(cache[h], h, has, below)
  }

  /** The flat map after the dirty entries of a child are written to it. */
  function Written(entries: CoinsMap, flat: View): View {
    map h | h in entries.Keys + flat.Keys && (h in entries && entries[h].isDirty ==> entries[h].coins.vout != []) && (h in flat || entries[h].isDirty) ::
      if h in entries && entries[h].isDirty then entries[h].coins else flat[h]
  }

  /** One entry of BatchWrite's loop, on a cache. */
  function WriteEntry(cache: CoinsMap, h: TxId, e: CacheEntry): CoinsMap {
    if !e.isDirty then cache
    else if h !in cache then
      if e.coins.vout == [] then cache else cache[h := CacheEntry(e.coins, true, true)]
    else if cache[h].isFresh && e.coins.vout == [] then cache - {h}
    else cache[h := cache[h].(coins := e.coins, isDirty := true)]
  }

  lemma OverlaySet(cache: CoinsMap, below: View, h: TxId, e: CacheEntry)
    ensures Overlay(cache[h := e], below) ==
            if e.coins.vout == [] then Overlay(cache, below) - {h} else Overlay(cache, below)[h := e.coins]
  {
  }

  lemma OverlayErase(cache: CoinsMap, below: View, h: TxId)
    requires h !in below
    ensures Overlay(cache - {h}, below) == Overlay(cache, below) - {h}
  {
  }

  lemma OverlayAt(cache: CoinsMap, below: View, h: TxId)
    ensures h !in cache ==> (h in Overlay(cache, below) <==> h in below)
    ensures h in cache ==> Agrees(cache[h].coins, Overlay(cache, below), h)
  {
  }

  lemma CacheOkSet(cache: CoinsMap, has: set<TxId>, has': set<TxId>, below: View, h: TxId, e: CacheEntry)
    requires CacheOk(cache, has, below) && has <= has' && EntryOk(e, h, has', below)
    ensures CacheOk(cache[h := e], has', below)
  {
  }

  /** Writing one entry of a sound child keeps the parent sound, and changes its flat map at that id alone.
      The assertion of BatchWrite cannot fire: an unpruned entry that the parent does not have is FRESH. */
  lemma WriteEntryOk(cache: CoinsMap, has: set<TxId>, below: View, h: TxId, e: CacheEntry)
    requires CacheOk(cache, has, below)
    requires EntryOk(e, h, cache.Keys, Overlay(cache, below))
    ensures CacheOk(WriteEntry(cache, h, e), has, below)
    ensures WriteEntry(cache, h, e).Keys - {h} == cache.Keys - {h}
    ensures e.isDirty && h !in cache ==> e.isFresh
    ensures var flat := Overlay(cache, below);
            Overlay(WriteEntry(cache, h, e), below)
            == WrittenAt(flat, h, e)
  {
    var flat := Overlay(cache, below);
    OverlayAt(cache, below, h);
    hide Overlay;
    if e.isDirty {
      if h !in cache {
        if e.coins.vout == [] {
          assert flat - {h} == flat;
        } else {
          OverlaySet(cache, below, h, CacheEntry(e.coins, true, true));
          CacheOkSet(cache, has, has, below, h, CacheEntry(e.coins, true, true));
        }
      } else if cache[h].isFresh && e.coins.vout == [] {
        OverlayErase(cache, below, h);
      } else {
        var entry := cache[h].(coins := e.coins, isDirty := true);
        OverlaySet(cache, below, h, entry);
        CacheOkSet(cache, has, has, below, h, entry);
      }
    }
  }

  /** An entry pulled in from below changes no flat map. */
  lemma PulledIn(cache: CoinsMap, has: set<TxId>, has': set<TxId>, below: View, h: TxId, found: bool, coins: CoinsValue)
    requires CacheOk(cache, has, below) && has <= has' && h !in cache
    requires found ==> h in has' && Agrees(coins, below, h) && IsClean(coins.vout)
    requires !found ==> h !in below
    ensures var e := CacheEntry(if found then coins else NO_COINS, false, !found || coins.vout == []);
            && CacheOk(cache, has', below) && CacheOk(cache[h := e], has', below)
            && Overlay(cache[h := e], below) == Overlay(cache, below)
            && Agrees(e.coins, Overlay(cache, below), h)
  {
    var e := CacheEntry(if found then coins else NO_COINS, false, !found || coins.vout == []);
    CacheOkSet(cache, has, has', below, h, e);
    OverlaySet(cache, below, h, e);
    OverlayAt(cache, below, h);
  }

  /** The end of a modification: the entry is cleaned, and dropped if it is FRESH and pruned. */
  function EndModify(cache: CoinsMap, h: TxId, c: CoinsValue): CoinsMap
    requires h in cache
  {
    var clean := c.(vout := Cleaned(c.vout));
    if cache[h].isFresh && clean.vout == [] then cache - {h}
    else cache[h := CacheEntry(clean, true, cache[h].isFresh)]
  }

  lemma EndModifyOk(cache: CoinsMap, has: set<TxId>, below: View, h: TxId, c: CoinsValue)
    requires CacheOk(cache, has, below) && h in cache
    ensures CacheOk(EndModify(cache, h, c), has, below)
    ensures Overlay(EndModify(cache, h, c), below) == Put(Overlay(cache, below), h, c)
  {
    var clean := c.(vout := Cleaned(c.vout));
    PrunedIsEmpty(c.vout);
    if cache[h].isFresh && clean.vout == [] {
      OverlayErase(cache, below, h);
    } else {
      var e := CacheEntry(clean, true, cache[h].isFresh);
      OverlaySet(cache, below, h, e);
      CacheOkSet(cache, has, has, below, h, e);
    }
  }

  class CoinsView {
    /** The view below, or null for the database. */
    const base: CoinsView?
    ghost const Repr: set<CoinsView>
    ghost const depth: nat
    /** The database's coins; unused in a cache. */
    var db: View
    var cacheCoins: CoinsMap
    var hashBlock: nat

    /** Views below are other objects. These links never change. */
    ghost predicate Wired()
      decreases depth
    {
      && this in Repr
      && (base == null ==> Repr == {this})
      && (base != null ==> base.depth < depth && Repr == base.Repr + {this} && this !in base.Repr && base.Wired())
    }

    /** The flat map this view stands for. */
    ghost function Flat(): View
      requires Wired()
      reads Repr
      decreases depth
    {
      if base == null then db else Overlay(cacheCoins, base.Flat())
    }

    /** The ids with an entry of their own. */
    ghost function Has(): set<TxId>
      reads this
    {
      if base == null then db.Keys else cacheCoins.Keys
    }

    ghost predicate Valid()
      requires Wired()
      reads Repr
      decreases depth
    {
      if base == null then Unpruned(db)
      else base.Valid() && CacheOk(cacheCoins, base.Has(), base.Flat())
    }

    ghost function BestBlock(): nat
      requires Wired()
      reads Repr
      decreases depth
    {
      if base == null || hashBlock != 0 then hashBlock else base.BestBlock()
    }

    constructor Database(coins: View, best: nat)
      requires Unpruned(coins)
      ensures Wired() && Valid() && Flat() == coins && BestBlock() == best && Repr == {this}
    {
      base, db, cacheCoins, hashBlock := null, coins, map[], best;
      Repr, depth := {this}, 0;
    }

    /** A new cache over a view: it stands for the same flat map. */
    constructor Cache(baseIn: CoinsView)
      requires baseIn.Wired() && baseIn.Valid()
      ensures Wired() && Valid() && base == baseIn && fresh(Repr - baseIn.Repr)
      ensures Flat() == baseIn.Flat() && BestBlock() == baseIn.BestBlock()
      ensures cacheCoins == map[] && hashBlock == 0
    {
      base, db, cacheCoins, hashBlock := baseIn, map[], map[], 0;
      Repr, depth := baseIn.Repr + {this}, baseIn.depth + 1;
      new;
      FlatUnpruned();
      base.FlatUnpruned();
    }

    lemma FlatUnpruned()
      requires Wired() && Valid()
      ensures Unpruned(Flat())
      decreases depth
    {
      if base != null {
        base.FlatUnpruned();
      }
    }

    /** Change the entries of a cache: nothing changes below. */
    method SetCache(entries: CoinsMap)
      requires Wired() && Valid() && base != null && CacheOk(entries, base.Has(), base.Flat())
      modifies this`cacheCoins
      ensures cacheCoins == entries && Valid() && Flat() == Overlay(entries, base.Flat())
      ensures base.Flat() == old(base.Flat()) && base.Has() == old(base.Has())
      ensures BestBlock() == old(BestBlock()) && base.BestBlock() == old(base.BestBlock())
    {
      hide Overlay, CacheOk, Unpruned;
      cacheCoins := entries;
    }

    /** Read an entry, pulling it in from below. No flat map of the stack changes. */
    method FetchCoins(txid: TxId) returns (found: bool)
      requires Wired() && Valid() && base != null
      modifies Repr
      ensures Valid() && Flat() == old(Flat()) && BestBlock() == old(BestBlock())
      ensures old(cacheCoins.Keys) <= cacheCoins.Keys && hashBlock == old(hashBlock)
      ensures found <==> txid in cacheCoins
      ensures base.Flat() == old(base.Flat()) && base.BestBlock() == old(base.BestBlock())
      ensures found ==> Agrees(cacheCoins[txid].coins, Flat(), txid)
      ensures !found ==> txid !in Flat()
      decreases depth, 0
    {
      if txid in cacheCoins {
        return true;
      }
      ghost var has := base.Has();
      var tmp;
      found, tmp := base.GetCoins(txid);
      PulledIn(cacheCoins, has, base.Has(), base.Flat(), txid, found, tmp);
      hide Overlay, CacheOk, Agrees;
      if found {
        SetCache(cacheCoins[txid := CacheEntry(tmp, false, tmp.vout == [])]);
      }
    }

    method GetCoins(txid: TxId) returns (found: bool, coins: CoinsValue)
      requires Wired() && Valid()
      modifies Repr
      ensures Valid() && Flat() == old(Flat()) && BestBlock() == old(BestBlock())
      ensures old(Has()) <= Has() && hashBlock == old(hashBlock)
      ensures found ==> txid in Has() && Agrees(coins, Flat(), txid) && IsClean(coins.vout)
      ensures !found ==> txid !in Flat()
      ensures base != null ==> base.Flat() == old(base.Flat()) && base.BestBlock() == old(base.BestBlock())
      decreases depth, 1
    {
      if base == null {
        found := txid in db;
        coins := if found then db[txid] else NO_COINS;
      } else {
        found := FetchCoins(txid);
        coins := if found then cacheCoins[txid].coins else NO_COINS;
      }
    }

    /** True exactly for transactions with an unspent output. */
    method HaveCoins(txid: TxId) returns (have: bool)
      requires Wired() && Valid() && base != null
      modifies Repr
      ensures Valid() && Flat() == old(Flat()) && BestBlock() == old(BestBlock())
      ensures have <==> txid in Flat()
    {
      var found := FetchCoins(txid);
      have := found && cacheCoins[txid].coins.vout != [];
    }

    /** Modify the coins of a transaction with f, then clean up as the modifier's destructor does. */
    method ModifyCoins(txid: TxId, f: CoinsValue -> CoinsValue) returns (before: CoinsValue)
      requires Wired() && Valid() && base != null
      modifies Repr
      ensures Valid() && Agrees(before, old(Flat()), txid)
      ensures Flat() == Put(old(Flat()), txid, f(before))
      ensures base.Flat() == old(base.Flat()) && base.BestBlock() == old(base.BestBlock())
      ensures BestBlock() == old(BestBlock()) && hashBlock == old(hashBlock)
    {
      hide Overlay, CacheOk;
      if txid !in cacheCoins {
        ghost var has := base.Has();
        var found, coins := base.GetCoins(txid);
        PulledIn(cacheCoins, has, base.Has(), base.Flat(), txid, found, coins);
        SetCache(cacheCoins[txid := CacheEntry(if found then coins else NO_COINS, false, !found || coins.vout == [])]);
      }
      OverlayAt(cacheCoins, base.Flat(), txid);
      before := cacheCoins[txid].coins;
      EndModifyOk(cacheCoins, base.Has(), base.Flat(), txid, f(before));
      SetCache(EndModify(cacheCoins, txid, f(cacheCoins[txid].coins)));
    }

    /** Write the entries of a child to this view, in any order. */
    method BatchWrite(mapCoins: CoinsMap, hash: nat)
      requires Wired() && Valid() && CacheOk(mapCoins, Has(), Flat())
      modifies this
      ensures Valid() && Flat() == Written(mapCoins, old(Flat()))
      ensures hashBlock == if base == null && hash == 0 then old(hashBlock) else hash
    {
      hide Overlay, CacheOk, Written, Unpruned;
      var rest := mapCoins;
      while rest != map[]
        invariant Valid() && hashBlock == old(hashBlock)
        invariant CacheOk(rest, Has(), Flat()) && Written(rest, Flat()) == Written(mapCoins, old(Flat()))
        decreases rest.Keys
      {
        ghost var has, flat := Has(), Flat();
        var h :| h in rest;
        EntryAt(rest, has, flat, h);
        WriteOne(h, rest[h]);
        RestOk(rest, has, Has(), flat, Flat(), h);
        rest := rest - {h};
      }
      WrittenNothing(Flat());
      if base != null || hash != 0 {
        hashBlock := hash;
      }
    }

    method WriteOne(h: TxId, e: CacheEntry)
      requires Wired() && Valid() && EntryOk(e, h, Has(), Flat()) && IsClean(e.coins.vout)
      modifies this`db, this`cacheCoins
      ensures Valid() && Flat() == WrittenAt(old(Flat()), h, e)
      ensures old(Has()) - {h} == Has() - {h}
    {
      hide Overlay, CacheOk, Unpruned, EntryOk, WriteEntry, IsClean;
      if base == null {
        UnprunedStays(db, h, e);
        db := WrittenAt(db, h, e);
      } else {
        WriteEntryOk(cacheCoins, base.Has(), base.Flat(), h, e);
        cacheCoins := WriteEntry(cacheCoins, h, e);
      }
    }

    /** Push the changes of a cache to the view below it: the flat map stays the same, and the best block too
        unless this cache never read or set it, while the view below has one of its own. */
    method Flush()
      requires Wired() && Valid() && base != null
      modifies Repr
      ensures Valid() && cacheCoins == map[] && Flat() == base.Flat() == old(Flat())
      ensures base.Valid() && base.BestBlock() == BestBlock()
      ensures BestBlock() == if old(hashBlock) == 0 && base.base != null then old(base.base.BestBlock()) else old(BestBlock())
    {
      WrittenIsOverlay(cacheCoins, base.Has(), base.Flat());
      base.BatchWrite(cacheCoins, hashBlock);
      cacheCoins := map[];
      base.FlatUnpruned();
      OverlayNothing(base.Flat());
    }

    /** The best block, asked for below if it is not known here. */
    method GetBestBlock() returns (best: nat)
      requires Wired() && Valid()
      modifies Repr
      ensures Valid() && Flat() == old(Flat()) && best == BestBlock() == old(BestBlock())
      ensures Has() == old(Has())
      ensures best != 0 ==> hashBlock != 0
      decreases depth
    {
      if base != null && hashBlock == 0 {
        hashBlock := base.GetBestBlock();
      }
      best := hashBlock;
    }

    method SetBestBlock(hash: nat)
      requires Wired() && Valid() && base != null
      modifies this`hashBlock
      ensures Valid() && Flat() == old(Flat()) && base.Flat() == old(base.Flat()) && base.BestBlock() == old(base.BestBlock()) && hashBlock == hash
      ensures BestBlock() == if hash != 0 then hash else base.BestBlock()
    {
      hashBlock := hash;
    }
  }

  lemma EntryAt(cache: CoinsMap, has: set<TxId>, below: View, h: TxId)
    requires CacheOk(cache, has, below) && h in cache
    ensures EntryOk(cache[h], h, has, below) && IsClean(cache[h].coins.vout)
  {
  }

  /** A flat map after one entry is written to it; the database does just that, and so holds no pruned coins. */
  function WrittenAt(flat: View, h: TxId, e: CacheEntry): View {
    if !e.isDirty then flat else if e.coins.vout == [] then flat - {h} else flat[h := e.coins]
  }

  lemma UnprunedStays(db: View, h: TxId, e: CacheEntry)
    requires Unpruned(db) && IsClean(e.coins.vout)
    ensures Unpruned(WrittenAt(db, h, e)) && WrittenAt(db, h, e).Keys - {h} == db.Keys - {h}
  {
  }

  lemma RestOk(rest: CoinsMap, has: set<TxId>, has': set<TxId>, flat: View, flat': View, h: TxId)
    requires CacheOk(rest, has, flat) && h in rest
    requires has - {h} == has' - {h} && flat' == WrittenAt(flat, h, rest[h])
    ensures CacheOk(rest - {h}, has', flat')
    ensures Written(rest - {h}, flat') == Written(rest, flat)
  {
    hide Written;
    RestWritten(rest, flat, flat', h);
    forall x | x in rest && x != h ensures EntryOk(rest[x], x, has', flat') {
      assert x in has ==> x in has - {h};
    }
  }

  lemma RestWritten(rest: CoinsMap, flat: View, flat': View, h: TxId)
    requires h in rest && flat' == WrittenAt(flat, h, rest[h])
    ensures Written(rest - {h}, flat') == Written(rest, flat)
  {
  }

  lemma WrittenNothing(flat: View)
    ensures Written(map[], flat) == flat
  {
  }

  lemma OverlayNothing(below: View)
    requires Unpruned(below)
    ensures Overlay(map[], below) == below
  {
  }

  /** Entries that are not dirty agree with what is below, so writing the dirty ones is the whole overlay. */
  /** Writing all entries of a sound cache to the map below makes of it the map that the cache stands for. */
  lemma WrittenIsOverlay(cache: CoinsMap, has: set<TxId>, below: View)
    requires CacheOk(cache, has, below)
    ensures Written(cache, below) == Overlay(cache, below)
  {
    forall h | h in Written(cache, below) ensures h in Overlay(cache, below) && Written(cache, below)[h] == Overlay(cache, below)[h] {
      assert h in cache ==> EntryOk(cache[h], h, has, below);
    }
    forall h | h in Overlay(cache, below) ensures h in Written(cache, below) {
      assert h in cache ==> EntryOk(cache[h], h, has, below);
    }
  }
}
