/**
 How the address manager is written to a stream and read back (src/addrman.h:275-421): nothing is lost, and the
 tables that are read are the tables that were written, up to the numbering of the entries.
 */
module AddrFile {
  import opened Arithmetic
  import opened AddrTables
  import opened AddrMan

  /** What is kept of an entry. */
  datatype Saved = Saved(addr: Service, source: nat, nServices: set<nat>, nTime: int, nLastSuccess: int, nAttempts: int)

  datatype Item = Int(n: int) | KeyItem(key: Key) | Info(saved: Saved)

  function Save(info: AddrInfo): Saved {
    Saved(info.addr, info.source, info.nServices, info.nTime, info.nLastSuccess, info.nAttempts)
  }

  /** An entry as it is read: the memory-only fields are unset. */
  function Load(saved: Saved): AddrInfo {
    AddrInfo(saved.addr, saved.source, saved.nServices, saved.nTime, saved.nLastSuccess, 0, saved.nAttempts, 0, false, -1)
  }

  /** n with bit 30 flipped. */
  function FlipBit30(n: int): (r: int)
    ensures n >= 0 ==> r >= 0 && FlipBit30Again(n, r)
  {
    if n / 0x4000_0000 % 2 == 0 then n + 0x4000_0000 else n - 0x4000_0000
  }

  predicate FlipBit30Again(n: int, r: int) {
    n == if r / 0x4000_0000 % 2 == 0 then r + 0x4000_0000 else r - 0x4000_0000
  }

  // ---------- the order of the entries ----------

  /** The ids below n on one side, ascending: the order in which the map is walked. */
  function IdsBelow(m: map<int, AddrInfo>, n: nat, tried: bool): (ids: seq<int>)
    ensures forall i | 0 <= i < |ids| :: 0 <= ids[i] < n && ids[i] in m
  {
    if n == 0 then [] else
      IdsBelow(m, n - 1, tried) + if n - 1 in m && m[n - 1].fInTried == tried then [n - 1] else []
  }

  lemma IdsBelowAll(m: map<int, AddrInfo>, n: nat, tried: bool)
    ensures var ids := IdsBelow(m, n, tried);
            && (forall id :: id in ids <==> 0 <= id < n && id in m && m[id].fInTried == tried)
            && (forall i, j | 0 <= i < j < |ids| :: ids[i] < ids[j])
  {
  }

  lemma IdsStep(m: map<int, AddrInfo>, n: nat, tried: bool)
    ensures IdsBelow(m, n + 1, tried) == IdsBelow(m, n, tried) + if n in m && m[n].fInTried == tried then [n] else []
    ensures n !in IdsBelow(m, n, tried)
  {
    IdsBelowAll(m, n, tried);
  }

  function NewList(s: State): seq<int>
    requires s.nIdCount >= 0
  {
    IdsBelow(s.mapInfo, s.nIdCount, false)
  }

  function TriedList(s: State): seq<int>
    requires s.nIdCount >= 0
  {
    IdsBelow(s.mapInfo, s.nIdCount, true)
  }

  ghost predicate Distinct(ids: seq<int>) {
    forall i, j | 0 <= i < j < |ids| :: ids[i] != ids[j]
  }

  /** The place of an id in a list, -1 if it is not there. */
  function IndexOf(ids: seq<int>, id: int): (k: int)
    ensures id in ids ==> 0 <= k < |ids| && ids[k] == id
    ensures id !in ids ==> k == -1
  {
    if ids == [] then -1
    else if ids[|ids| - 1] == id then |ids| - 1
    else IndexOf(ids[..|ids| - 1], id)
  }

  lemma IndexIs(ids: seq<int>, k: nat)
    requires Distinct(ids) && k < |ids|
    ensures IndexOf(ids, ids[k]) == k
  {
  }

  lemma DistinctSize(ids: seq<int>, s: set<int>)
    requires Distinct(ids) && forall x :: x in s <==> x in ids
    ensures |ids| == |s|
  {
    if ids == [] {
      assert forall x :: x !in s;
      assert s == {};
    } else {
      var last, rest := ids[|ids| - 1], ids[..|ids| - 1];
      assert forall x :: x in s - {last} <==> x in rest;
      DistinctSize(rest, s - {last});
    }
  }

  lemma ListSizes(key: Key, s: State)
    requires Inv(key, s)
    ensures s.nIdCount >= 0 && |NewList(s)| == s.nNew && |TriedList(s)| == s.nTried
    ensures forall id :: id in NewList(s) <==> id in s.mapInfo && !s.mapInfo[id].fInTried
    ensures forall id :: id in TriedList(s) <==> id in s.mapInfo && s.mapInfo[id].fInTried
  {
    assert forall n | n in s.mapInfo :: 0 <= n < s.nIdCount;
    assert s.nNew == |NewIds(s.mapInfo)| && s.nTried == |TriedIds(s.mapInfo)|;
    IdsBelowAll(s.mapInfo, s.nIdCount, false);
    IdsBelowAll(s.mapInfo, s.nIdCount, true);
    hide Loose, IdsBelow;
    DistinctSize(NewList(s), NewIds(s.mapInfo));
    DistinctSize(TriedList(s), TriedIds(s.mapInfo));
  }

  // ---------- the stream ----------

  function Infos(m: map<int, AddrInfo>, ids: seq<int>): seq<Item>
    requires forall i | 0 <= i < |ids| :: ids[i] in m
  {
    seq(|ids|, i requires 0 <= i < |ids| => Info(Save(m[ids[i]])))
  }

  /** The ids in a bucket, from position i on. */
  function BucketIds(t: Table, b: int, i: nat): (ids: seq<int>)
    requires FullTable(t, NEW_BUCKET_COUNT) && 0 <= b < NEW_BUCKET_COUNT && i <= BUCKET_SIZE
    decreases BUCKET_SIZE - i
  {
    if i == BUCKET_SIZE then [] else
      (if t[(b, i)] == -1 then [] else [t[(b, i)]]) + BucketIds(t, b, i + 1)
  }

  function Indices(list: seq<int>, ids: seq<int>): seq<Item> {
    seq(|ids|, i requires 0 <= i < |ids| => Int(IndexOf(list, ids[i])))
  }

  function Buckets(t: Table, list: seq<int>, b: nat): seq<Item>
    requires FullTable(t, NEW_BUCKET_COUNT) && b <= NEW_BUCKET_COUNT
    decreases NEW_BUCKET_COUNT - b
  {
    if b == NEW_BUCKET_COUNT then [] else
      var ids := BucketIds(t, b, 0);
      [Int(|ids|)] + Indices(list, ids) + Buckets(t, list, b + 1)
  }

  function Header(key: Key, s: State): seq<Item> {
    [Int(1), Int(32), KeyItem(key), Int(s.nNew), Int(s.nTried), Int(FlipBit30(NEW_BUCKET_COUNT))]
  }

  ghost function Stream(key: Key, s: State): seq<Item>
    requires s.nIdCount >= 0 && FullTable(s.vvNew, NEW_BUCKET_COUNT)
  {
    Header(key, s) + Infos(s.mapInfo, NewList(s)) + Infos(s.mapInfo, TriedList(s)) + Buckets(s.vvNew, NewList(s), 0)
  }

  // ---------- writing ----------

  method Serialize(a: CAddrMan) returns (out: seq<Item>)
    requires a.Valid()
    ensures a.S().nIdCount >= 0 && FullTable(a.S().vvNew, NEW_BUCKET_COUNT)
    ensures out == Stream(a.nKey, a.S())
  {
    hide Loose, TableOf, FullTable, IdsBelow, Infos, Buckets, Numbered, Lists;
    ghost var s := a.S();
    Shape(a.nKey, s);
    ghost var list := NewList(s);
    ListSizes(a.nKey, s);
    RefCounts(a.nKey, s);
    out := [Int(1), Int(32), KeyItem(a.nKey), Int(a.nNew), Int(a.nTried), Int(FlipBit30(NEW_BUCKET_COUNT))];
    var newInfos, mapUnkIds := WriteNew(a.mapInfo, a.nIdCount, a.nNew);
    var triedInfos := WriteTried(a.mapInfo, a.nIdCount, a.nTried);
    var buckets := WriteBuckets(a.vvNew, mapUnkIds, list);
    out := out + newInfos + triedInfos + buckets;
  }

  /** The entries with references, in the order of their ids, and the numbers the others will know them by. */
  method WriteNew(mapInfo: map<int, AddrInfo>, nIdCount: nat, nNew: int) returns (out: seq<Item>, mapUnkIds: map<int, int>)
    requires nNew == |IdsBelow(mapInfo, nIdCount, false)|
    requires forall n | n in mapInfo :: mapInfo[n].nRefCount == 0 <==> mapInfo[n].fInTried
    ensures out == Infos(mapInfo, IdsBelow(mapInfo, nIdCount, false))
    ensures Numbered(mapUnkIds, IdsBelow(mapInfo, nIdCount, false))
  {
    hide IdsBelow, Infos, Numbered;
    NoneYet(mapInfo, false);
    out, mapUnkIds := [], map[];
    var nIds := 0;
    for n := 0 to nIdCount
      invariant nIds == |IdsBelow(mapInfo, n, false)| && out == Infos(mapInfo, IdsBelow(mapInfo, n, false))
      invariant Numbered(mapUnkIds, IdsBelow(mapInfo, n, false))
    {
      ghost var list := IdsBelow(mapInfo, n, false);
      PrefixList(mapInfo, n + 1, nIdCount, false);
      IdsStep(mapInfo, n, false);
      assert list + [] == list;
      if n in mapInfo {
        NumberedMore(mapUnkIds, list, n);
        mapUnkIds := mapUnkIds[n := nIds];
        if mapInfo[n].nRefCount != 0 {
          // The count of new entries was right.
          assert nIds != nNew;
          InfosMore(mapInfo, list, n);
          out := out + [Info(Save(mapInfo[n]))];
          nIds := nIds + 1;
        }
      }
    }
  }

  method WriteTried(mapInfo: map<int, AddrInfo>, nIdCount: nat, nTried: int) returns (out: seq<Item>)
    requires nTried == |IdsBelow(mapInfo, nIdCount, true)|
    ensures out == Infos(mapInfo, IdsBelow(mapInfo, nIdCount, true))
  {
    hide IdsBelow, Infos;
    NoneYet(mapInfo, true);
    out := [];
    var nIds := 0;
    for n := 0 to nIdCount
      invariant nIds == |IdsBelow(mapInfo, n, true)| && out == Infos(mapInfo, IdsBelow(mapInfo, n, true))
    {
      PrefixList(mapInfo, n + 1, nIdCount, true);
      IdsStep(mapInfo, n, true);
      assert IdsBelow(mapInfo, n, true) + [] == IdsBelow(mapInfo, n, true);
      if n in mapInfo && mapInfo[n].fInTried {
        assert nIds != nTried;
        InfosMore(mapInfo, IdsBelow(mapInfo, n, true), n);
        out := out + [Info(Save(mapInfo[n]))];
        nIds := nIds + 1;
      }
    }
  }

  /** The numbers of the entries are their places in a list. */
  ghost predicate Numbered(numbers: map<int, int>, list: seq<int>) {
    forall n | n in list :: n in numbers && numbers[n] == IndexOf(list, n)
  }

  lemma NoneYet(m: map<int, AddrInfo>, tried: bool)
    ensures IdsBelow(m, 0, tried) == [] && Infos(m, []) == [] && Numbered(map[], [])
  {
  }

  lemma InfosMore(m: map<int, AddrInfo>, ids: seq<int>, id: int)
    requires (forall i | 0 <= i < |ids| :: ids[i] in m) && id in m
    ensures Infos(m, ids + [id]) == Infos(m, ids) + [Info(Save(m[id]))]
  {
  }

  lemma NumberedMore(numbers: map<int, int>, list: seq<int>, n: int)
    requires Numbered(numbers, list) && n !in list
    ensures Numbered(numbers[n := |list|], list) && Numbered(numbers[n := |list|], list + [n])
  {
    assert (list + [n])[..|list|] == list;
  }

  lemma IndicesMore(list: seq<int>, ids: seq<int>, id: int)
    ensures Indices(list, ids + [id]) == Indices(list, ids) + [Int(IndexOf(list, id))]
  {
  }

  lemma BucketStep(t: Table, b: int, i: nat)
    requires FullTable(t, NEW_BUCKET_COUNT) && 0 <= b < NEW_BUCKET_COUNT && i < BUCKET_SIZE
    ensures (b, i) in t
    ensures BucketIds(t, b, i) == (if t[(b, i)] == -1 then [] else [t[(b, i)]]) + BucketIds(t, b, i + 1)
  {
  }

  lemma BucketEnd(t: Table, b: int, list: seq<int>)
    requires FullTable(t, NEW_BUCKET_COUNT) && 0 <= b < NEW_BUCKET_COUNT
    ensures BucketIds(t, b, BUCKET_SIZE) == [] && Indices(list, []) == []
  {
  }

  lemma BucketsStep(out: seq<Item>, t: Table, list: seq<int>, b: nat)
    requires FullTable(t, NEW_BUCKET_COUNT) && b < NEW_BUCKET_COUNT
    ensures var ids := BucketIds(t, b, 0);
            out + Buckets(t, list, b) == out + ([Int(|ids|)] + Indices(list, ids)) + Buckets(t, list, b + 1)
  {
    hide BucketIds, FullTable, Indices;
    var one := [Int(|BucketIds(t, b, 0)|)] + Indices(list, BucketIds(t, b, 0));
    assert Buckets(t, list, b) == one + Buckets(t, list, b + 1);
    assert out + (one + Buckets(t, list, b + 1)) == out + one + Buckets(t, list, b + 1);
  }

  lemma BucketsEnd(t: Table, list: seq<int>)
    requires FullTable(t, NEW_BUCKET_COUNT)
    ensures Buckets(t, list, NEW_BUCKET_COUNT) == []
  {
  }

  /** For every bucket, the number of entries in it and their numbers. */
  method WriteBuckets(vvNew: array2<int>, mapUnkIds: map<int, int>, ghost list: seq<int>) returns (out: seq<Item>)
    requires FullTable(TableOf(vvNew), NEW_BUCKET_COUNT) && Numbered(mapUnkIds, list) && Lists(TableOf(vvNew), list)
    requires vvNew.Length0 == NEW_BUCKET_COUNT && vvNew.Length1 == BUCKET_SIZE
    ensures out == Buckets(TableOf(vvNew), list, 0)
  {
    hide TableOf, FullTable, Lists, Numbered, BucketIds, Buckets;
    BucketsEnd(TableOf(vvNew), list);
    ghost var t := TableOf(vvNew);
    out := [];
    for bucket := 0 to NEW_BUCKET_COUNT
      invariant out + Buckets(t, list, bucket) == Buckets(t, list, 0)
    {
      var one := WriteBucket(vvNew, bucket, mapUnkIds, list);
      BucketsStep(out, t, list, bucket);
      out := out + one;
    }
    assert out + [] == out;
  }

  /** Everything in a table is in the list. */
  ghost predicate Lists(t: Table, list: seq<int>) {
    forall x | x in t && t[x] != -1 :: t[x] in list
  }

  method WriteBucket(vvNew: array2<int>, bucket: int, mapUnkIds: map<int, int>, ghost list: seq<int>) returns (out: seq<Item>)
    requires FullTable(TableOf(vvNew), NEW_BUCKET_COUNT) && Numbered(mapUnkIds, list) && Lists(TableOf(vvNew), list)
    requires vvNew.Length0 == NEW_BUCKET_COUNT && vvNew.Length1 == BUCKET_SIZE && 0 <= bucket < NEW_BUCKET_COUNT
    ensures var ids := BucketIds(TableOf(vvNew), bucket, 0); out == [Int(|ids|)] + Indices(list, ids)
  {
    hide TableOf, FullTable, BucketIds, Indices, IndexOf;
    ghost var t := TableOf(vvNew);
    BucketEnd(t, bucket, list);
    ghost var ids := BucketIds(t, bucket, 0);
    var nSize := 0;
    for i := 0 to BUCKET_SIZE
      invariant nSize + |BucketIds(t, bucket, i)| == |ids|
    {
      BucketStep(t, bucket, i);
      assert t[(bucket, i)] == vvNew[bucket, i];
      if vvNew[bucket, i] != -1 {
        nSize := nSize + 1;
      }
    }
    out := [Int(nSize)];
    ghost var k := 0;
    for i := 0 to BUCKET_SIZE
      invariant 0 <= k <= |ids| && BucketIds(t, bucket, i) == ids[k..]
      invariant out == [Int(nSize)] + Indices(list, ids[..k])
    {
      BucketStep(t, bucket, i);
      assert t[(bucket, i)] == vvNew[bucket, i];
      if vvNew[bucket, i] != -1 {
        assert ids[k] == ids[k..][0] == vvNew[bucket, i];
        assert ids[..k + 1] == ids[..k] + [ids[k]];
        assert ids[k + 1..] == ids[k..][1..];
        IndicesMore(list, ids[..k], ids[k]);
        var nIndex := mapUnkIds[vvNew[bucket, i]];
        out := out + [Int(nIndex)];
        k := k + 1;
      }
    }
    assert ids[..k] == ids;
  }

  lemma Shape(key: Key, s: State)
    requires Inv(key, s)
    ensures s.nIdCount >= 0 && FullTable(s.vvNew, NEW_BUCKET_COUNT) && -1 !in s.mapInfo
  {
  }

  lemma RefCounts(key: Key, s: State)
    requires Inv(key, s)
    ensures forall n | n in s.mapInfo :: s.mapInfo[n].nRefCount == 0 <==> s.mapInfo[n].fInTried
    ensures s.nIdCount >= 0 && Lists(s.vvNew, NewList(s))
  {
    assert forall n | n in s.mapInfo :: RefOk(s.mapInfo[n], n, s.vvNew, n in {});
    hide RefOk;
    forall x | x in s.vvNew && s.vvNew[x] != -1 ensures s.vvNew[x] in NewList(s) {
      InNewList(key, s, x);
    }
  }

  lemma PrefixList(m: map<int, AddrInfo>, n: nat, n': nat, tried: bool)
    requires n <= n'
    ensures IdsBelow(m, n, tried) <= IdsBelow(m, n', tried)
  {
    if n < n' {
      PrefixList(m, n, n' - 1, tried);
      IdsStep(m, n' - 1, tried);
    }
  }

  lemma InNewList(key: Key, s: State, slot: Slot)
    requires Inv(key, s) && slot in s.vvNew && s.vvNew[slot] != -1
    ensures s.nIdCount >= 0 && s.vvNew[slot] in NewList(s)
  {
    NewSlotEntry(key, s, {}, 0, slot);
    ListSizes(key, s);
  }

  // ---------- reading ----------

  function Ids(n: int): (r: set<int>)
    ensures forall i :: i in r <==> 0 <= i < n
  {
    if n <= 0 then {} else Ids(n - 1) + {n - 1}
  }

  /** Entry k is what was saved of entry ids[k]; its references are still to be read. */
  ghost predicate Content(m': map<int, AddrInfo>, m: map<int, AddrInfo>, ids: seq<int>, n: int) {
    && m'.Keys == Ids(n) && n <= |ids|
    && forall k | 0 <= k < n :: ids[k] in m && Alike(m'[k], m[ids[k]])
  }

  predicate Alike(info': AddrInfo, info: AddrInfo) {
    Save(info') == Save(info) && info'.nLastTry == 0 && info'.fInTried == info.fInTried
  }

  /** The state with the counts it will have been read up to. */
  ghost function View(s: State, n: int, k: int): State {
    s.(nIdCount := n + k, nNew := n, nTried := k)
  }

  /** The order in which entries are saved. */
  ghost function Order(s: State): seq<int>
    requires s.nIdCount >= 0
  {
    NewList(s) + TriedList(s)
  }

  lemma OrderAll(key: Key, s: State)
    requires Inv(key, s)
    ensures s.nIdCount >= 0 && Distinct(Order(s)) && |Order(s)| == s.nNew + s.nTried == |s.mapInfo|
    ensures forall n :: n in Order(s) <==> n in s.mapInfo
    ensures forall k | 0 <= k < |Order(s)| :: Order(s)[k] in s.mapInfo && (s.mapInfo[Order(s)[k]].fInTried <==> k >= s.nNew)
  {
    CountsAddUp(s, 0);
    ListSizes(key, s);
    IdsBelowAll(s.mapInfo, s.nIdCount, false);
    IdsBelowAll(s.mapInfo, s.nIdCount, true);
    hide Loose, IdsBelow;
    OrderOf(s.mapInfo, NewList(s), TriedList(s));
  }

  lemma OrderOf(m: map<int, AddrInfo>, new_: seq<int>, tried: seq<int>)
    requires Distinct(new_) && Distinct(tried)
    requires forall id :: id in new_ <==> id in m && !m[id].fInTried
    requires forall id :: id in tried <==> id in m && m[id].fInTried
    ensures var ids := new_ + tried;
            && Distinct(ids) && (forall n :: n in ids <==> n in m)
            && forall k | 0 <= k < |ids| :: ids[k] in m && (m[ids[k]].fInTried <==> k >= |new_|)
  {
    var ids := new_ + tried;
    forall k | 0 <= k < |ids| ensures ids[k] in m && (m[ids[k]].fInTried <==> k >= |new_|) {
      if k < |new_| {
        assert ids[k] == new_[k] && new_[k] in new_;
      } else {
        assert ids[k] == tried[k - |new_|] && tried[k - |new_|] in tried;
      }
    }
  }

  /** An address that is still to be read is not known yet. */
  lemma NotYetKnown(key: Key, s: State, s': State, ids: seq<int>, n: nat, uncounted: int)
    requires Inv(key, s) && Distinct(ids) && n < |ids| && ids[n] in s.mapInfo
    requires Loose(key, s', Ids(n), uncounted) && Content(s'.mapInfo, s.mapInfo, ids, n)
    ensures s.mapInfo[ids[n]].addr.ip !in s'.mapAddr
  {
    hide TriedOk, NewOk, RandomOk, CountsOk, TimesOk;
  }

  /** The slot of a tried entry that is still to be read is free. */
  lemma NotYetTried(key: Key, s: State, s': State, ids: seq<int>, n: nat, uncounted: int)
    requires Inv(key, s) && Distinct(ids) && n < |ids| && ids[n] in s.mapInfo && s.mapInfo[ids[n]].fInTried
    requires Loose(key, s', Ids(n), uncounted) && Content(s'.mapInfo, s.mapInfo, ids, n)
    ensures var slot := key.TriedSlot(s.mapInfo[ids[n]].addr); slot in s'.vvTried && s'.vvTried[slot] == -1
    ensures s.mapInfo[ids[n]].nLastSuccess > 0
  {
    hide AddrOk, NewOk, RandomOk, CountsOk;
    var slot := key.TriedSlot(s.mapInfo[ids[n]].addr);
    SlotsInRange(key, s', Ids(n), uncounted, s.mapInfo[ids[n]].addr);
    TimesAt(key, s, ids[n]);
  }

  /** Read an entry of the new table. */
  method TakeNew(a: CAddrMan, saved: Saved, n: int, ghost s: State, ghost ids: seq<int>)
    requires a.Shaped() && Inv(a.nKey, s) && Distinct(ids) && 0 <= n < |ids| && ids[n] in s.mapInfo && !s.mapInfo[ids[n]].fInTried
    requires Loose(a.nKey, View(a.S(), n, 0), Ids(n), 0) && Content(a.mapInfo, s.mapInfo, ids, n)
    requires saved == Save(s.mapInfo[ids[n]])
    modifies a`mapInfo, a`mapAddr, a`vRandom
    ensures Loose(a.nKey, View(a.S(), n + 1, 0), Ids(n + 1), 0) && Content(a.mapInfo, s.mapInfo, ids, n + 1)
  {
    hide Loose, TableOf, Key.NewSlot, Key.TriedSlot, Key.Ranges, Content, Ids;
    ghost var v, m := View(a.S(), n, 0), a.mapInfo;
    NotYetKnown(a.nKey, s, v, ids, n, 0);
    TimesAt(a.nKey, s, ids[n]);
    CreateOk(a.nKey, v, Ids(n), 0, Load(saved));
    Uncount(a.nKey, Create(v, Load(saved)), Ids(n) + {n}, 1, -1);
    var info := Load(saved);
    a.mapAddr := a.mapAddr[info.addr.ip := n];
    a.mapInfo := a.mapInfo[n := info.(nRandomPos := |a.vRandom|)];
    a.vRandom := a.vRandom + [n];
    assert View(a.S(), n + 1, 0) == Create(v, Load(saved)).(nNew := n + 1);
    IdsMore(n);
    ContentMore(m, s.mapInfo, ids, n, a.mapInfo[n]);
  }

  /** Read an entry of the tried table: it gets the next id, unless its slot is taken. */
  method TakeTried(a: CAddrMan, saved: Saved, n: int, ghost s: State, ghost ids: seq<int>) returns (lost: bool)
    requires a.Shaped() && Inv(a.nKey, s) && Distinct(ids) && 0 <= n <= a.nIdCount < |ids|
    requires ids[a.nIdCount] in s.mapInfo && s.mapInfo[ids[a.nIdCount]].fInTried
    requires Loose(a.nKey, View(a.S(), n, a.nIdCount - n), Ids(a.nIdCount), 0) && Content(a.mapInfo, s.mapInfo, ids, a.nIdCount)
    requires saved == Save(s.mapInfo[ids[a.nIdCount]])
    modifies a`mapInfo, a`mapAddr, a`vRandom, a`nIdCount, a.vvTried
    ensures a.nIdCount == old(a.nIdCount) + 1 && !lost
    ensures Loose(a.nKey, View(a.S(), n, a.nIdCount - n), Ids(a.nIdCount), 0) && Content(a.mapInfo, s.mapInfo, ids, a.nIdCount)
  {
    hide Loose, TableOf, Key.NewSlot, Key.TriedSlot, Key.Ranges, Content, Ids, AddrTables.Try;
    ghost var id := a.nIdCount;
    ghost var v, m := View(a.S(), n, id - n), a.mapInfo;
    NotYetKnown(a.nKey, s, v, ids, id, 0);
    NotYetTried(a.nKey, s, v, ids, id, 0);
    TimesAt(a.nKey, s, ids[id]);
    var info := Load(saved);
    CreateOk(a.nKey, v, Ids(id), 0, info);
    ghost var v1 := Create(v, info);
    TryOk(a.nKey, v1, Ids(id) + {id}, 1, id);
    SlotsInRange(a.nKey, v, Ids(id), 0, info.addr);
    var kb := a.nKey.triedBucket(info.addr);
    var kp := a.nKey.position(info.addr, false, kb);
    TriedSlotIs(a.nKey, info.addr);
    assert v.vvTried[(kb, kp)] == a.vvTried[kb, kp];
    lost := a.vvTried[kb, kp] != -1;
    if a.vvTried[kb, kp] == -1 {
      info := info.(nRandomPos := |a.vRandom|, fInTried := true);
      a.vRandom := a.vRandom + [a.nIdCount];
      a.mapInfo := a.mapInfo[a.nIdCount := info];
      a.mapAddr := a.mapAddr[info.addr.ip := a.nIdCount];
      a.SetTried(kb, kp, a.nIdCount);
      a.nIdCount := a.nIdCount + 1;
    }
    assert v1.mapInfo[id := v1.mapInfo[id].(fInTried := true)] == a.mapInfo;
    TryIs(a.nKey, v1, View(a.S(), n, id + 1 - n), id);
    IdsMore(id);
    assert Ids(id) + {id} - {id} == Ids(id) by { IdsLess(id); }
    Float(a.nKey, View(a.S(), n, id + 1 - n), Ids(id), 0, id);
    ContentMore(m, s.mapInfo, ids, id, a.mapInfo[id]);
  }

  /** What has been read of the new table: the buckets below b, and of bucket b the ids in `seen`. */
  ghost predicate Read(t': Table, t: Table, ids: seq<int>, b: int, seen: seq<int>) {
    t'.Keys == t.Keys && forall x | x in t :: t'[x] == if Comes(t[x], x, b, seen) then IndexOf(ids, t[x]) else -1
  }

  predicate Comes(id: int, x: Slot, b: int, seen: seq<int>) {
    id != -1 && (x.0 < b || (x.0 == b && id in seen))
  }

  lemma BucketAll(t: Table, b: int, i: nat)
    requires FullTable(t, NEW_BUCKET_COUNT) && 0 <= b < NEW_BUCKET_COUNT && i <= BUCKET_SIZE
    ensures forall id :: id in BucketIds(t, b, i) <==> id != -1 && exists p :: i <= p < BUCKET_SIZE && t[(b, p)] == id
    decreases BUCKET_SIZE - i
  {
    if i < BUCKET_SIZE {
      BucketAll(t, b, i + 1);
    }
  }

  /** An entry is at most once in a bucket, because its position there is given. */
  lemma BucketDistinct(key: Key, s: State, b: int, i: nat)
    requires Inv(key, s) && FullTable(s.vvNew, NEW_BUCKET_COUNT) && 0 <= b < NEW_BUCKET_COUNT && i <= BUCKET_SIZE
    ensures Distinct(BucketIds(s.vvNew, b, i))
    decreases BUCKET_SIZE - i
  {
    if i < BUCKET_SIZE {
      BucketDistinct(key, s, b, i + 1);
      BucketAll(s.vvNew, b, i + 1);
      hide Inv;
      if s.vvNew[(b, i)] != -1 {
        forall p | i + 1 <= p < BUCKET_SIZE ensures s.vvNew[(b, p)] != s.vvNew[(b, i)] {
          SamePosition(key, s, b, i, p);
        }
        assert s.vvNew[(b, i)] !in BucketIds(s.vvNew, b, i + 1);
      } else {
        assert BucketIds(s.vvNew, b, i) == BucketIds(s.vvNew, b, i + 1);
      }
    }
  }

  lemma SamePosition(key: Key, s: State, b: int, p: int, q: int)
    requires Inv(key, s) && (b, p) in s.vvNew && (b, q) in s.vvNew && s.vvNew[(b, p)] != -1 && p != q
    ensures s.vvNew[(b, p)] != s.vvNew[(b, q)]
  {
    hide AddrOk, RandomOk, TimesOk, TriedOk, CountsOk, RefOk;
  }

  /** An entry in bucket b: its slot, and what has been read of its references. */
  lemma InBucket(key: Key, s: State, s': State, ids: seq<int>, b: int, seen: seq<int>, n: int, floating: set<int>)
    requires Inv(key, s) && Loose(key, s', floating, 0) && Distinct(ids)
    requires FullTable(s.vvNew, NEW_BUCKET_COUNT) && 0 <= b < NEW_BUCKET_COUNT
    requires n in BucketIds(s.vvNew, b, 0) && n !in seen && Read(s'.vvNew, s.vvNew, ids, b, seen)
    requires n in ids && n in s.mapInfo && IndexOf(ids, n) in s'.mapInfo && s'.mapInfo[IndexOf(ids, n)].addr == s.mapInfo[n].addr
    ensures var k, pos := IndexOf(ids, n), key.position(s.mapInfo[n].addr, true, b);
            && 0 <= pos < BUCKET_SIZE && (b, pos) in s.vvNew && s.vvNew[(b, pos)] == n && (b, pos) in s'.vvNew && s'.vvNew[(b, pos)] == -1
            && s'.mapInfo[k].nRefCount < NEW_BUCKETS_PER_ADDRESS
  {
    hide Loose, BucketIds, Distinct;
    BucketAll(s.vvNew, b, 0);
    var p :| 0 <= p < BUCKET_SIZE && s.vvNew[(b, p)] == n;
    var k := IndexOf(ids, n);
    SlotOf(key, s, (b, p));
    NoMinusOne(key, s, {}, 0);
    assert !Comes(n, (b, p), b, seen);
    FewerSlots(s'.vvNew, s.vvNew, ids, b, seen, n, (b, p));
    RefsAt(key, s, {}, n);
    RefsAt(key, s', floating, k);
  }

  lemma SlotOf(key: Key, s: State, slot: Slot)
    requires Inv(key, s) && slot in s.vvNew && s.vvNew[slot] != -1
    ensures s.vvNew[slot] in s.mapInfo && slot == key.NewSlot(s.mapInfo[s.vvNew[slot]].addr, slot.0) && 0 <= slot.1 < BUCKET_SIZE
  {
    InTable(s.vvNew, NEW_BUCKET_COUNT, slot);
  }

  lemma RefsAt(key: Key, s: State, floating: set<int>, n: int)
    requires Loose(key, s, floating, 0) && n in s.mapInfo
    ensures s.mapInfo[n].nRefCount == |Slots(s.vvNew, n)| && (n !in floating ==> s.mapInfo[n].nRefCount <= NEW_BUCKETS_PER_ADDRESS)
    ensures s.mapInfo[n].nRefCount <= NEW_BUCKETS_PER_ADDRESS
  {
    assert RefOk(s.mapInfo[n], n, s.vvNew, n in floating);
  }

  lemma FewerSlots(t': Table, t: Table, ids: seq<int>, b: int, seen: seq<int>, n: int, slot: Slot)
    requires Read(t', t, ids, b, seen) && n in ids && slot in t && t[slot] == n && n != -1 && !Comes(n, slot, b, seen)
    ensures |Slots(t', IndexOf(ids, n))| < |Slots(t, n)|
  {
    var k := IndexOf(ids, n);
    forall x | x in Slots(t', k) ensures x in Slots(t, n) - {slot} {
      assert t'[x] == k && t[x] in ids;
    }
    SubsetSize(Slots(t', k), Slots(t, n) - {slot});
    assert |Slots(t, n) - {slot}| == |Slots(t, n)| - 1;
  }

  lemma ReadMore(t': Table, t: Table, ids: seq<int>, b: int, seen: seq<int>, n: int, slot: Slot)
    requires Read(t', t, ids, b, seen) && slot in t && t[slot] == n && n != -1 && slot.0 == b
    requires forall x | x in t && x.0 == b && t[x] == n :: x == slot
    ensures Read(t'[slot := IndexOf(ids, n)], t, ids, b, seen + [n])
  {
    hide IndexOf;
  }

  /** Everything has been read but references to entries of the new table. */
  ghost predicate Reading(a: CAddrMan, s: State, ids: seq<int>, b: int, seen: seq<int>)
    reads a, a.vvNew, a.vvTried
  {
    && a.Shaped() && Inv(a.nKey, s) && ids == (if s.nIdCount >= 0 then Order(s) else []) && a.nNew == s.nNew && a.nTried == s.nTried
    && Loose(a.nKey, a.S(), Ids(|ids|), 0) && Content(a.mapInfo, s.mapInfo, ids, |ids|) && Read(TableOf(a.vvNew), s.vvNew, ids, b, seen)
  }

  /** Read a reference to entry nIndex in a bucket. */
  method TakeIndex(a: CAddrMan, bucket: int, nIndex: int, ghost s: State, ghost ids: seq<int>, ghost seen: seq<int>, ghost n: int)
    requires Reading(a, s, ids, bucket, seen) && FullTable(s.vvNew, NEW_BUCKET_COUNT) && 0 <= bucket < NEW_BUCKET_COUNT
    requires n in BucketIds(s.vvNew, bucket, 0) && n !in seen && nIndex == IndexOf(NewList(s), n)
    modifies a`mapInfo, a.vvNew
    ensures Reading(a, s, ids, bucket, seen + [n])
  {
    hide Loose, TableOf, Key.NewSlot, Key.TriedSlot, Key.Ranges, Content, Read, BucketIds, Order, IndexOf, FullTable;
    InOrder(a.nKey, s, bucket, n);
    OrderAll(a.nKey, s);
    ContentAt(a.mapInfo, s.mapInfo, ids, |ids|, nIndex);
    ghost var t, m := TableOf(a.vvNew), a.mapInfo;
    InBucket(a.nKey, s, a.S(), ids, bucket, seen, n, Ids(|ids|));
    if 0 <= nIndex < a.nNew {
      var nUBucketPos := a.nKey.position(a.mapInfo[nIndex].addr, true, bucket);
      assert a.S().vvNew[(bucket, nUBucketPos)] == a.vvNew[bucket, nUBucketPos];
      if a.vvNew[bucket, nUBucketPos] == -1 && a.mapInfo[nIndex].nRefCount < NEW_BUCKETS_PER_ADDRESS {
        a.Put(bucket, nUBucketPos, nIndex, Ids(|ids|), 0);
        OnlySlot(a.nKey, s, bucket, nUBucketPos);
        ReadMore(t, s.vvNew, ids, bucket, seen, n, (bucket, nUBucketPos));
        PutContent(m, s.mapInfo, ids, nIndex, m[nIndex].nRefCount + 1);
        RefloatIn(a.nKey, a.S(), Ids(|ids|), 0, nIndex);
      }
    }
  }

  lemma InOrder(key: Key, s: State, b: int, n: int)
    requires Inv(key, s) && FullTable(s.vvNew, NEW_BUCKET_COUNT) && 0 <= b < NEW_BUCKET_COUNT && n in BucketIds(s.vvNew, b, 0)
    ensures s.nIdCount >= 0 && n in s.mapInfo && !s.mapInfo[n].fInTried && n in NewList(s) && n in Order(s)
    ensures IndexOf(Order(s), n) == IndexOf(NewList(s), n) && 0 <= IndexOf(NewList(s), n) < s.nNew
  {
    hide Loose, BucketIds;
    BucketAll(s.vvNew, b, 0);
    var p :| 0 <= p < BUCKET_SIZE && s.vvNew[(b, p)] == n;
    NoMinusOne(key, s, {}, 0);
    InNewList(key, s, (b, p));
    ListSizes(key, s);
    OrderAll(key, s);
    var k := IndexOf(NewList(s), n);
    assert Order(s)[k] == NewList(s)[k] == n;
    IndexIs(Order(s), k);
  }

  lemma ContentAt(m': map<int, AddrInfo>, m: map<int, AddrInfo>, ids: seq<int>, n: int, k: int)
    requires Content(m', m, ids, n) && 0 <= k < n
    ensures k in m' && ids[k] in m && Save(m'[k]) == Save(m[ids[k]]) && m'[k].fInTried == m[ids[k]].fInTried && m'[k].nLastTry == 0
    ensures m'[k].addr == m[ids[k]].addr
  {
    assert k in Ids(n);
    assert Save(m'[k]).addr == m'[k].addr;
  }

  lemma PutContent(m': map<int, AddrInfo>, m: map<int, AddrInfo>, ids: seq<int>, k: int, count: int)
    requires Content(m', m, ids, |ids|) && k in m'
    ensures Content(m'[k := m'[k].(nRefCount := count)], m, ids, |ids|)
  {
  }

  lemma RefloatIn(key: Key, s: State, floating: set<int>, uncounted: int, id: int)
    requires Loose(key, s, floating - {id}, uncounted) && id in floating
    ensures Loose(key, s, floating, uncounted)
  {
    hide Loose;
    Float(key, s, floating - {id}, uncounted, id);
    assert floating - {id} + {id} == floating;
  }

  lemma OnlySlot(key: Key, s: State, b: int, p: int)
    requires Inv(key, s) && (b, p) in s.vvNew && s.vvNew[(b, p)] != -1
    ensures forall x | x in s.vvNew && x.0 == b && s.vvNew[x] == s.vvNew[(b, p)] :: x == (b, p)
  {
    hide Loose;
    forall x | x in s.vvNew && x.0 == b && s.vvNew[x] == s.vvNew[(b, p)] ensures x == (b, p) {
      SlotOf(key, s, x);
      SlotOf(key, s, (b, p));
    }
  }

  lemma IdsMore(n: nat)
    ensures Ids(n) + {n} == Ids(n + 1)
  {
  }

  lemma IdsLess(n: nat)
    ensures n !in Ids(n)
  {
  }

  lemma ContentMore(m': map<int, AddrInfo>, m: map<int, AddrInfo>, ids: seq<int>, n: nat, info: AddrInfo)
    requires Content(m', m, ids, n) && n < |ids| && ids[n] in m && Alike(info, m[ids[n]])
    ensures Content(m'[n := info], m, ids, n + 1)
  {
  }

  /** Read one item. */
  method Get(rest: seq<Item>, ghost tail: seq<Item>) returns (item: Item, rest': seq<Item>)
    requires |rest| > 0 && rest[1..] == tail
    ensures item == rest[0] && rest' == tail
  {
    item, rest' := rest[0], rest[1..];
  }

  lemma InfosAt(m: map<int, AddrInfo>, ids: seq<int>, k: nat, tail: seq<Item>)
    requires (forall i | 0 <= i < |ids| :: ids[i] in m) && k < |ids|
    ensures var rest := Infos(m, ids)[k..] + tail;
            rest[0] == Info(Save(m[ids[k]])) && rest[1..] == Infos(m, ids)[k + 1..] + tail
  {
  }

  lemma IndicesAt(list: seq<int>, ids: seq<int>, k: nat, tail: seq<Item>)
    requires k < |ids|
    ensures var rest := Indices(list, ids)[k..] + tail;
            rest[0] == Int(IndexOf(list, ids[k])) && rest[1..] == Indices(list, ids)[k + 1..] + tail
  {
  }

  /** Read one bucket. */
  method TakeBucket(a: CAddrMan, bucket: int, rest0: seq<Item>, ghost s: State, ghost ids: seq<int>) returns (rest: seq<Item>)
    requires Reading(a, s, ids, bucket, []) && FullTable(s.vvNew, NEW_BUCKET_COUNT) && 0 <= bucket < NEW_BUCKET_COUNT && s.nIdCount >= 0
    requires rest0 == Buckets(s.vvNew, NewList(s), bucket)
    modifies a`mapInfo, a.vvNew
    ensures Reading(a, s, ids, bucket + 1, []) && rest == Buckets(s.vvNew, NewList(s), bucket + 1)
  {
    hide Reading, Indices, FullTable, BucketIds, IndexOf;
    ghost var list, b := NewList(s), BucketIds(s.vvNew, bucket, 0);
    ghost var tail := Buckets(s.vvNew, list, bucket + 1);
    assert rest0 == [Int(|b|)] + (Indices(list, b) + tail);
    var item;
    item, rest := Get(rest0, Indices(list, b) + tail);
    var nSize := item.n;
    IndicesEnds(list, b, tail);
    var n := 0;
    while n < nSize
      invariant 0 <= n <= nSize && Reading(a, s, ids, bucket, b[..n]) && rest == Indices(list, b)[n..] + tail
    {
      IndicesAt(list, b, n, tail);
      item, rest := Get(rest, Indices(list, b)[n + 1..] + tail);
      OnceInBucket(a, s, ids, bucket, n);
      TakeIndex(a, bucket, item.n, s, ids, b[..n], b[n]);
      assert b[..n] + [b[n]] == b[..n + 1];
      n := n + 1;
    }
    assert b[..n] == b;
    BucketDone(a, s, ids, bucket);
  }

  lemma IndicesEnds(list: seq<int>, ids: seq<int>, tail: seq<Item>)
    ensures |Indices(list, ids)| == |ids| && Indices(list, ids)[0..] + tail == Indices(list, ids) + tail
    ensures Indices(list, ids)[|ids|..] + tail == tail
  {
  }

  lemma OnceInBucket(a: CAddrMan, s: State, ids: seq<int>, bucket: int, n: nat)
    requires FullTable(s.vvNew, NEW_BUCKET_COUNT) && 0 <= bucket < NEW_BUCKET_COUNT && n < |BucketIds(s.vvNew, bucket, 0)|
    requires Reading(a, s, ids, bucket, BucketIds(s.vvNew, bucket, 0)[..n])
    ensures BucketIds(s.vvNew, bucket, 0)[n] !in BucketIds(s.vvNew, bucket, 0)[..n]
  {
    hide Loose, TableOf, Content, Read, BucketIds, FullTable;
    BucketDistinct(a.nKey, s, bucket, 0);
  }

  lemma BucketDone(a: CAddrMan, s: State, ids: seq<int>, bucket: int)
    requires FullTable(s.vvNew, NEW_BUCKET_COUNT) && 0 <= bucket < NEW_BUCKET_COUNT
    requires Reading(a, s, ids, bucket, BucketIds(s.vvNew, bucket, 0))
    ensures Reading(a, s, ids, bucket + 1, [])
  {
    hide Loose, TableOf, Content, BucketIds, FullTable, Read;
    ReadDone(TableOf(a.vvNew), s.vvNew, ids, bucket);
  }

  lemma ReadDone(t': Table, t: Table, ids: seq<int>, b: int)
    requires FullTable(t, NEW_BUCKET_COUNT) && 0 <= b < NEW_BUCKET_COUNT && Read(t', t, ids, b, BucketIds(t, b, 0))
    ensures Read(t', t, ids, b + 1, [])
  {
    hide IndexOf, BucketIds;
    BucketAll(t, b, 0);
    forall x | x in t ensures Comes(t[x], x, b + 1, []) == Comes(t[x], x, b, BucketIds(t, b, 0)) {
      InTable(t, NEW_BUCKET_COUNT, x);
      assert x == (x.0, x.1);
    }
  }

  /** s' is s but for the numbers of the entries, the order of vRandom and the times of the last tries. */
  ghost predicate Renumbered(s: State, ids: seq<int>, s': State) {
    && Distinct(ids) && (forall n :: n in ids <==> n in s.mapInfo)
    && s'.mapInfo.Keys == Ids(|ids|)
    && (forall k | 0 <= k < |ids| ::
          ids[k] in s.mapInfo && s'.mapInfo[k] == s.mapInfo[ids[k]].(nLastTry := 0, nRandomPos := s'.mapInfo[k].nRandomPos))
    && SameTable(s.vvNew, ids, s'.vvNew) && SameTable(s.vvTried, ids, s'.vvTried)
    && s'.nNew == s.nNew && s'.nTried == s.nTried
  }

  ghost predicate SameTable(t: Table, ids: seq<int>, t': Table) {
    t'.Keys == t.Keys && forall x | x in t :: t'[x] == if t[x] == -1 then -1 else IndexOf(ids, t[x])
  }

  lemma Finish(a: CAddrMan, s: State, ids: seq<int>)
    requires Reading(a, s, ids, NEW_BUCKET_COUNT, []) && s.nIdCount >= 0
    ensures a.Valid() && Renumbered(s, ids, a.S())
  {
    FinishState(a.nKey, s, a.S(), ids);
  }

  lemma FinishState(key: Key, s: State, s': State, ids: seq<int>)
    requires Inv(key, s) && s.nIdCount >= 0 && ids == Order(s) && s'.nNew == s.nNew && s'.nTried == s.nTried
    requires Loose(key, s', Ids(|ids|), 0) && Content(s'.mapInfo, s.mapInfo, ids, |ids|) && Read(s'.vvNew, s.vvNew, ids, NEW_BUCKET_COUNT, [])
    ensures Inv(key, s') && Renumbered(s, ids, s')
  {
    hide Inv, Loose, Content, Read, IndexOf, SameTable, Order, Slots, Distinct, Ids;
    OrderAll(key, s);
    ReadAll(key, s, s', ids);
    TriedSame(key, s, s', ids);
    forall k | 0 <= k < |ids|
      ensures k in s'.mapInfo && s'.mapInfo[k] == s.mapInfo[ids[k]].(nLastTry := 0, nRandomPos := s'.mapInfo[k].nRandomPos)
    {
      EntryBack(key, s, s', ids, k);
    }
    ContentKeys(s'.mapInfo, s.mapInfo, ids);
    assert Renumbered(s, ids, s');
    Referred(key, s, s', ids);
    Unfloat(key, s', Ids(|ids|));
  }

  lemma Referred(key: Key, s: State, s': State, ids: seq<int>)
    requires Inv(key, s) && Renumbered(s, ids, s')
    ensures forall n | n in s'.mapInfo :: s'.mapInfo[n].nRefCount == 0 ==> s'.mapInfo[n].fInTried
  {
    hide Loose, SameTable;
    RefCounts(key, s);
  }

  lemma EntryBack(key: Key, s: State, s': State, ids: seq<int>, k: nat)
    requires Inv(key, s) && Loose(key, s', Ids(|ids|), 0) && Content(s'.mapInfo, s.mapInfo, ids, |ids|) && SameTable(s.vvNew, ids, s'.vvNew)
    requires k < |ids| && Distinct(ids) && forall n :: n in ids <==> n in s.mapInfo
    ensures k in s'.mapInfo && s'.mapInfo[k] == s.mapInfo[ids[k]].(nLastTry := 0, nRandomPos := s'.mapInfo[k].nRandomPos)
  {
    hide Loose, Content, IndexOf, SameTable, Slots;
    ContentAt(s'.mapInfo, s.mapInfo, ids, |ids|, k);
    NoMinusOne(key, s, {}, 0);
    forall x | x in s.vvNew && s.vvNew[x] != -1 ensures s.vvNew[x] in ids {
      NewSlotEntry(key, s, {}, 0, x);
    }
    SameSlots(s.vvNew, ids, s'.vvNew, k);
    RefsAt(key, s, {}, ids[k]);
    RefsAt(key, s', Ids(|ids|), k);
    SavedParts(s'.mapInfo[k], s.mapInfo[ids[k]]);
  }

  lemma SavedParts(i': AddrInfo, i: AddrInfo)
    requires Save(i') == Save(i) && i'.fInTried == i.fInTried && i'.nLastTry == 0 && i'.nRefCount == i.nRefCount
    ensures i' == i.(nLastTry := 0, nRandomPos := i'.nRandomPos)
  {
  }

  lemma ContentKeys(m': map<int, AddrInfo>, m: map<int, AddrInfo>, ids: seq<int>)
    requires Content(m', m, ids, |ids|)
    ensures m'.Keys == Ids(|ids|)
  {
  }

  lemma ReadAll(key: Key, s: State, s': State, ids: seq<int>)
    requires Inv(key, s) && Read(s'.vvNew, s.vvNew, ids, NEW_BUCKET_COUNT, [])
    ensures SameTable(s.vvNew, ids, s'.vvNew)
  {
    hide IndexOf;
    forall x | x in s.vvNew ensures Comes(s.vvNew[x], x, NEW_BUCKET_COUNT, []) == (s.vvNew[x] != -1) {
      InTable(s.vvNew, NEW_BUCKET_COUNT, x);
    }
  }

  /** The tried table need not be saved: it follows from the entries. */
  lemma TriedSame(key: Key, s: State, s': State, ids: seq<int>)
    requires Inv(key, s) && Loose(key, s', Ids(|ids|), 0) && Content(s'.mapInfo, s.mapInfo, ids, |ids|)
    requires Distinct(ids) && forall n :: n in ids <==> n in s.mapInfo
    ensures SameTable(s.vvTried, ids, s'.vvTried)
  {
    hide Loose, IndexOf, Content, Distinct;
    TriedFull(key, s, {});
    TriedFull(key, s', Ids(|ids|));
    SameKeys(s.vvTried, s'.vvTried);
    forall x | x in s.vvTried ensures s'.vvTried[x] == if s.vvTried[x] == -1 then -1 else IndexOf(ids, s.vvTried[x]) {
      TriedOne(key, s, s', ids, x);
    }
  }

  lemma TriedOne(key: Key, s: State, s': State, ids: seq<int>, x: Slot)
    requires Inv(key, s) && Loose(key, s', Ids(|ids|), 0) && Content(s'.mapInfo, s.mapInfo, ids, |ids|)
    requires x in s.vvTried && x in s'.vvTried && forall n :: n in ids <==> n in s.mapInfo
    ensures s'.vvTried[x] == if s.vvTried[x] == -1 then -1 else IndexOf(ids, s.vvTried[x])
  {
    hide Loose, IndexOf, Content, Key.TriedSlot;
    ContentKeys(s'.mapInfo, s.mapInfo, ids);
    if s.vvTried[x] != -1 {
      TriedSlotEntry(key, s, {}, 0, x);
      var k := IndexOf(ids, s.vvTried[x]);
      ContentAt(s'.mapInfo, s.mapInfo, ids, |ids|, k);
      TriedAt(key, s', Ids(|ids|), k);
    } else if s'.vvTried[x] != -1 {
      TriedSlotEntry(key, s', Ids(|ids|), 0, x);
      var k := s'.vvTried[x];
      ContentAt(s'.mapInfo, s.mapInfo, ids, |ids|, k);
      TriedAt(key, s, {}, ids[k]);
      NoMinusOne(key, s, {}, 0);
    }
  }

  lemma TriedFull(key: Key, s: State, floating: set<int>)
    requires Loose(key, s, floating, 0)
    ensures FullTable(s.vvTried, TRIED_BUCKET_COUNT)
  {
  }

  lemma TriedAt(key: Key, s: State, floating: set<int>, n: int)
    requires Loose(key, s, floating, 0) && n in s.mapInfo && s.mapInfo[n].fInTried
    ensures var slot := key.TriedSlot(s.mapInfo[n].addr); slot in s.vvTried && s.vvTried[slot] == n
  {
  }

  lemma SameKeys(t: Table, t': Table)
    requires FullTable(t, TRIED_BUCKET_COUNT) && FullTable(t', TRIED_BUCKET_COUNT)
    ensures t.Keys == t'.Keys
  {
    forall x | x in t ensures x in t' {
      InTable(t, TRIED_BUCKET_COUNT, x);
      assert x == (x.0, x.1);
    }
    forall x | x in t' ensures x in t {
      InTable(t', TRIED_BUCKET_COUNT, x);
      assert x == (x.0, x.1);
    }
  }

  lemma SameSlots(t: Table, ids: seq<int>, t': Table, k: nat)
    requires SameTable(t, ids, t') && Distinct(ids) && k < |ids| && ids[k] != -1
    requires forall x | x in t && t[x] != -1 :: t[x] in ids
    ensures Slots(t', k) == Slots(t, ids[k])
  {
    IndexIs(ids, k);
    hide IndexOf;
  }

  lemma Unfloat(key: Key, s: State, floating: set<int>)
    requires Loose(key, s, floating, 0) && forall n | n in s.mapInfo :: s.mapInfo[n].nRefCount == 0 ==> s.mapInfo[n].fInTried
    ensures Inv(key, s)
  {
    assert forall n | n in s.mapInfo :: RefOk(s.mapInfo[n], n, s.vvNew, n in floating) && s.mapInfo[n].nRefCount == |Slots(s.vvNew, n)|;
    hide Slots;
    assert NewOk(key, s.mapInfo, s.vvNew, {});
  }

  lemma StreamParts(key: Key, s: State)
    requires s.nIdCount >= 0 && FullTable(s.vvNew, NEW_BUCKET_COUNT)
    ensures Stream(key, s) == Header(key, s) +
                              (Infos(s.mapInfo, NewList(s)) + (Infos(s.mapInfo, TriedList(s)) + Buckets(s.vvNew, NewList(s), 0)))
  {
    hide Infos, Buckets, Header;
  }

  /**
     Read a stream that Serialize wrote into a fresh address manager. No entry is lost to a collision, and every new
     entry has its references back, so the pruning at the end of the source's function finds nothing to do.
     */
  method Unserialize(stream: seq<Item>, ghost key: Key, ghost s: State) returns (a: CAddrMan)
    requires Inv(key, s) && s.nIdCount >= 0 && FullTable(s.vvNew, NEW_BUCKET_COUNT) && stream == Stream(key, s)
    ensures fresh(a) && fresh(a.vvNew) && fresh(a.vvTried)
    ensures a.Valid() && a.nKey == key
    ensures Renumbered(s, Order(s), a.S())
  {
    hide Loose, TableOf, Infos, Buckets, Order, FullTable, Content, Read, Reading, CAddrMan.Valid, IdsBelow;
    StreamParts(key, s);
    var nVersion, nKeySize, nKey, nUBuckets := stream[0].n, stream[1].n, stream[2].key, FlipBit30(stream[5].n);
    assert nVersion == 1 && nKeySize == 32 && nUBuckets == NEW_BUCKET_COUNT;
    KeyRanges(key, s);
    a := new CAddrMan(nKey);
    var rest := stream[6..];
    rest := TakeEntries(a, stream[3].n, stream[4].n, rest, s);
    for bucket := 0 to NEW_BUCKET_COUNT
      invariant fresh(a) && fresh(a.vvNew) && fresh(a.vvTried) && a.nKey == key
      invariant Reading(a, s, Order(s), bucket, []) && rest == Buckets(s.vvNew, NewList(s), bucket)
    {
      rest := TakeBucket(a, bucket, rest, s, Order(s));
    }
    Finish(a, s, Order(s));
  }

  lemma KeyRanges(key: Key, s: State)
    requires Inv(key, s)
    ensures key.Ranges()
  {
  }

  /** n entries of the new table and k of the tried table have been read. */
  ghost predicate Loading(a: CAddrMan, s: State, n: int, k: int)
    requires s.nIdCount >= 0
    reads a, a.vvNew, a.vvTried
  {
    && a.Shaped() && Inv(a.nKey, s) && a.nNew == s.nNew && a.nTried == s.nTried && 0 <= n <= s.nNew && 0 <= k <= s.nTried
    && Loose(a.nKey, View(a.S(), n, k), Ids(n + k), 0) && Content(a.mapInfo, s.mapInfo, Order(s), n + k)
    && Read(TableOf(a.vvNew), s.vvNew, Order(s), 0, [])
  }

  /** Read the entries of the new table. */
  method TakeNews(a: CAddrMan, rest0: seq<Item>, ghost s: State, ghost tail: seq<Item>) returns (rest: seq<Item>)
    requires s.nIdCount >= 0 && Loading(a, s, 0, 0) && rest0 == Infos(s.mapInfo, NewList(s)) + tail
    modifies a`mapInfo, a`mapAddr, a`vRandom
    ensures Loading(a, s, s.nNew, 0) && rest == tail
  {
    hide Loose, TableOf, Infos, Order, Content, Read, IdsBelow, View, Ids;
    ghost var list, ids := NewList(s), Order(s);
    OrderAll(a.nKey, s);
    ListSizes(a.nKey, s);
    InfosEnds(s.mapInfo, list, tail);
    rest := rest0;
    var n := 0;
    while n < a.nNew
      invariant Loading(a, s, n, 0) && rest == Infos(s.mapInfo, list)[n..] + tail && a.nNew == s.nNew
    {
      InfosAt(s.mapInfo, list, n, tail);
      OrderAt(s, n);
      var item;
      item, rest := Get(rest, Infos(s.mapInfo, list)[n + 1..] + tail);
      TakeNew(a, item.saved, n, s, ids);
      n := n + 1;
    }
  }

  /** Read the entries of the tried table. */
  method TakeTrieds(a: CAddrMan, rest0: seq<Item>, ghost s: State, ghost tail: seq<Item>) returns (rest: seq<Item>)
    requires s.nIdCount >= 0 && Loading(a, s, s.nNew, 0) && a.nIdCount == a.nNew && rest0 == Infos(s.mapInfo, TriedList(s)) + tail
    modifies a`mapInfo, a`mapAddr, a`vRandom, a`nIdCount, a`nTried, a.vvTried
    ensures Loading(a, s, s.nNew, s.nTried) && a.nIdCount == s.nNew + s.nTried && rest == tail
  {
    hide Loose, TableOf, Infos, Order, Content, Read, IdsBelow, View, Ids;
    ghost var list, ids := TriedList(s), Order(s);
    OrderAll(a.nKey, s);
    ListSizes(a.nKey, s);
    InfosEnds(s.mapInfo, list, tail);
    rest := rest0;
    var nLost := 0;
    for n := 0 to a.nTried
      invariant Loading(a, s, s.nNew, n) && rest == Infos(s.mapInfo, list)[n..] + tail
      invariant a.nIdCount == s.nNew + n && nLost == 0
    {
      InfosAt(s.mapInfo, list, n, tail);
      OrderAt(s, s.nNew + n);
      var item;
      item, rest := Get(rest, Infos(s.mapInfo, list)[n + 1..] + tail);
      var lost := TakeTried(a, item.saved, a.nNew, s, ids);
      if lost {
        nLost := nLost + 1;
      }
    }
    a.nTried := a.nTried - nLost;
  }

  lemma InfosEnds(m: map<int, AddrInfo>, ids: seq<int>, tail: seq<Item>)
    requires forall i | 0 <= i < |ids| :: ids[i] in m
    ensures |Infos(m, ids)| == |ids| && Infos(m, ids)[0..] + tail == Infos(m, ids) + tail && Infos(m, ids)[|ids|..] + tail == tail
  {
  }

  lemma OrderAt(s: State, k: nat)
    requires s.nIdCount >= 0 && k < |NewList(s)| + |TriedList(s)|
    ensures |Order(s)| == |NewList(s)| + |TriedList(s)|
    ensures Order(s)[k] == if k < |NewList(s)| then NewList(s)[k] else TriedList(s)[k - |NewList(s)|]
  {
  }

  lemma Blank(key: Key, s': State, s: State)
    requires Inv(key, s') && s'.mapInfo == map[] && Inv(key, s) && s.nIdCount >= 0
    ensures Loose(key, View(s', 0, 0), Ids(0), 0) && Content(s'.mapInfo, s.mapInfo, Order(s), 0) && Read(s'.vvNew, s.vvNew, Order(s), 0, [])
    ensures s.nNew >= 0 && s.nTried >= 0
  {
    assert TriedIds(s'.mapInfo) == {} && NewIds(s'.mapInfo) == {};
    hide Order, IndexOf, Slots;
    assert Ids(0) == {};
    forall x | x in s.vvNew ensures x in s'.vvNew && !Comes(s.vvNew[x], x, 0, []) {
      InTable(s.vvNew, NEW_BUCKET_COUNT, x);
      assert x == (x.0, x.1);
    }
    forall x | x in s'.vvNew ensures x in s.vvNew {
      InTable(s'.vvNew, NEW_BUCKET_COUNT, x);
      assert x == (x.0, x.1);
    }
  }

  lemma Loaded(a: CAddrMan, s: State)
    requires s.nIdCount >= 0 && Loading(a, s, s.nNew, s.nTried) && a.nIdCount == s.nNew + s.nTried
    ensures Reading(a, s, Order(s), 0, [])
  {
    hide Inv, Loose, TableOf, Order, Content, Read, Ids, View;
    OrderAll(a.nKey, s);
    ViewItself(a.S(), s.nNew, s.nTried);
  }

  lemma ViewItself(s: State, n: int, k: int)
    requires s.nIdCount == n + k && s.nNew == n && s.nTried == k
    ensures View(s, n, k) == s
  {
  }

  /** Read the entries of both tables. */
  method TakeEntries(a: CAddrMan, nNew: int, nTried: int, rest0: seq<Item>, ghost s: State) returns (rest: seq<Item>)
    requires a.Valid() && a.mapInfo == map[] && Inv(a.nKey, s) && s.nIdCount >= 0 && FullTable(s.vvNew, NEW_BUCKET_COUNT)
    requires nNew == s.nNew && nTried == s.nTried
    requires rest0 == Infos(s.mapInfo, NewList(s)) + (Infos(s.mapInfo, TriedList(s)) + Buckets(s.vvNew, NewList(s), 0))
    modifies a, a.vvTried
    ensures Reading(a, s, Order(s), 0, []) && rest == Buckets(s.vvNew, NewList(s), 0)
  {
    hide Loose, TableOf, Infos, Buckets, Order, FullTable, Content, Read, IdsBelow, Reading, Ids;
    Blank(a.nKey, a.S(), s);
    ghost var v := View(a.S(), 0, 0);
    a.nNew, a.nTried := nNew, nTried;
    assert View(a.S(), 0, 0) == v;
    rest := TakeNews(a, rest0, s, Infos(s.mapInfo, TriedList(s)) + Buckets(s.vvNew, NewList(s), 0));
    v := View(a.S(), s.nNew, 0);
    a.nIdCount := nNew;
    assert View(a.S(), s.nNew, 0) == v;
    rest := TakeTrieds(a, rest, s, Buckets(s.vvNew, NewList(s), 0));
    Loaded(a, s);
  }
}
