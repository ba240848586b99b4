/**
 The tables of the address manager as values: five redundant structures, the invariant that Check_ tests
 (src/addrman.cpp:374-448), and what each elementary change does to it.
 */
module AddrTables {

  const TRIED_BUCKET_COUNT := 256
  const NEW_BUCKET_COUNT := 1024
  const BUCKET_SIZE := 64
  const NEW_BUCKETS_PER_ADDRESS := 8

  /** An address with its port; the address map knows the address alone. */
  datatype Service = Service(ip: nat, port: nat)

  /** Service flags are the set of their bits. */
  datatype AddrInfo = AddrInfo(
    addr: Service, source: nat, nServices: set<nat>, nTime: int, nLastSuccess: int, nLastTry: int, nAttempts: int,
    nRefCount: int, fInTried: bool, nRandomPos: int)

  /** The keyed hashes that choose buckets and positions. */
  datatype Key = Key(triedBucket: Service -> int, newBucket: (Service, nat) -> int, position: (Service, bool, int) -> int) {
    ghost predicate Ranges() {
      && (forall a :: 0 <= triedBucket(a) < TRIED_BUCKET_COUNT)
      && (forall a, src :: 0 <= newBucket(a, src) < NEW_BUCKET_COUNT)
      && (forall a, f, b :: 0 <= position(a, f, b) < BUCKET_SIZE)
    }

    function TriedSlot(a: Service): Slot {
      (triedBucket(a), position(a, false, triedBucket(a)))
    }

    function NewSlot(a: Service, bucket: int): Slot {
      (bucket, position(a, true, bucket))
    }
  }

  type Slot = (int, int)

  /** A bucket table: an id for every slot, -1 for none. */
  type Table = map<Slot, int>

  datatype State = State(
    mapInfo: map<int, AddrInfo>, mapAddr: map<nat, int>, vRandom: seq<int>, nIdCount: int,
    nTried: int, vvTried: Table, nNew: int, vvNew: Table)

  ghost predicate FullTable(t: Table, buckets: int) {
    forall b, p :: (b, p) in t <==> 0 <= b < buckets && 0 <= p < BUCKET_SIZE
  }

  lemma InTable(t: Table, buckets: int, s: Slot)
    requires FullTable(t, buckets) && s in t
    ensures 0 <= s.0 < buckets && 0 <= s.1 < BUCKET_SIZE
  {
    var (b, p) := s;
    assert (b, p) in t;
  }

  function Slots(t: Table, id: int): set<Slot> {
    set s | s in t && t[s] == id
  }

  function TriedIds(mapInfo: map<int, AddrInfo>): set<int> {
    set n | n in mapInfo && mapInfo[n].fInTried
  }

  function NewIds(mapInfo: map<int, AddrInfo>): set<int> {
    set n | n in mapInfo && !mapInfo[n].fInTried
  }

  /** mapAddr is the inverse of mapInfo's addresses; ids are below nIdCount. */
  ghost predicate AddrOk(mapInfo: map<int, AddrInfo>, mapAddr: map<nat, int>, nIdCount: int) {
    && 0 <= nIdCount
    && (forall n | n in mapInfo :: 0 <= n < nIdCount && mapInfo[n].addr.ip in mapAddr && mapAddr[mapInfo[n].addr.ip] == n)
    && (forall ip | ip in mapAddr :: mapAddr[ip] in mapInfo && mapInfo[mapAddr[ip]].addr.ip == ip)
  }

  /** vRandom is a permutation of the ids, and every entry knows its position. */
  ghost predicate RandomOk(mapInfo: map<int, AddrInfo>, vRandom: seq<int>) {
    && |vRandom| == |mapInfo|
    && (forall n | n in mapInfo :: 0 <= mapInfo[n].nRandomPos < |vRandom| && vRandom[mapInfo[n].nRandomPos] == n)
    && (forall i | 0 <= i < |vRandom| :: vRandom[i] in mapInfo && mapInfo[vRandom[i]].nRandomPos == i)
  }

  ghost predicate TimesOk(mapInfo: map<int, AddrInfo>) {
    forall n | n in mapInfo :: mapInfo[n].nLastTry >= 0 && mapInfo[n].nLastSuccess >= 0
                               && (mapInfo[n].fInTried ==> mapInfo[n].nLastSuccess != 0)
  }

  ghost predicate TriedOk(key: Key, mapInfo: map<int, AddrInfo>, vvTried: Table) {
    && FullTable(vvTried, TRIED_BUCKET_COUNT)
    && (forall s | s in vvTried && vvTried[s] != -1 ::
          vvTried[s] in mapInfo && mapInfo[vvTried[s]].fInTried && s == key.TriedSlot(mapInfo[vvTried[s]].addr))
    && (forall n | n in mapInfo && mapInfo[n].fInTried ::
          key.TriedSlot(mapInfo[n].addr) in vvTried && vvTried[key.TriedSlot(mapInfo[n].addr)] == n)
  }

  /** Reference counts are numbers of slots. Ids in `floating` may have none for the moment. */
  ghost predicate NewOk(key: Key, mapInfo: map<int, AddrInfo>, vvNew: Table, floating: set<int>) {
    && FullTable(vvNew, NEW_BUCKET_COUNT)
    && (forall s | s in vvNew && vvNew[s] != -1 ::
          vvNew[s] in mapInfo && !mapInfo[vvNew[s]].fInTried && s == key.NewSlot(mapInfo[vvNew[s]].addr, s.0))
    && (forall n | n in mapInfo :: RefOk(mapInfo[n], n, vvNew, n in floating))
  }

  predicate RefOk(info: AddrInfo, n: int, vvNew: Table, floats: bool) {
    && info.nRefCount == |Slots(vvNew, n)|
    && (info.fInTried ==> info.nRefCount == 0)
    && (!info.fInTried ==> info.nRefCount <= NEW_BUCKETS_PER_ADDRESS && (floats || info.nRefCount >= 1))
  }

  /** `uncounted` entries that are not tried have been taken out of nNew. */
  ghost predicate CountsOk(s: State, uncounted: int) {
    && s.nTried == |TriedIds(s.mapInfo)|
    && s.nNew + uncounted == |NewIds(s.mapInfo)|
  }

  /** The invariant in the middle of an operation. */
  ghost predicate Loose(key: Key, s: State, floating: set<int>, uncounted: int) {
    && key.Ranges()
    && AddrOk(s.mapInfo, s.mapAddr, s.nIdCount)
    && RandomOk(s.mapInfo, s.vRandom)
    && TimesOk(s.mapInfo)
    && TriedOk(key, s.mapInfo, s.vvTried)
    && NewOk(key, s.mapInfo, s.vvNew, floating)
    && CountsOk(s, uncounted)
  }

  /** What Check_ tests. */
  ghost predicate Inv(key: Key, s: State) {
    Loose(key, s, {}, 0)
  }

  lemma CountsAddUp(s: State, uncounted: int)
    requires CountsOk(s, uncounted)
    ensures |s.mapInfo| == s.nTried + s.nNew + uncounted
  {
    var tried, new_ := TriedIds(s.mapInfo), NewIds(s.mapInfo);
    assert s.mapInfo.Keys == tried + new_;
    assert tried !! new_;
  }

  lemma EmptyInv(key: Key, s: State)
    requires key.Ranges() && s.mapInfo == map[] && s.mapAddr == map[] && s.vRandom == [] && s.nIdCount == s.nTried == s.nNew == 0
    requires FullTable(s.vvTried, TRIED_BUCKET_COUNT) && FullTable(s.vvNew, NEW_BUCKET_COUNT)
    requires (forall x | x in s.vvTried :: s.vvTried[x] == -1) && (forall x | x in s.vvNew :: s.vvNew[x] == -1)
    ensures Inv(key, s)
  {
    assert TriedIds(s.mapInfo) == {} && NewIds(s.mapInfo) == {};
  }

  /** What an operation on one id needs to know of the invariant. */
  lemma LooseAt(key: Key, s: State, floating: set<int>, uncounted: int, id: int)
    requires Loose(key, s, floating, uncounted) && id in s.mapInfo
    ensures 0 <= s.mapInfo[id].nRandomPos < |s.vRandom| && id != -1
    ensures RandomOk(s.mapInfo, s.vRandom)
  {
  }

  // ---------- elementary changes ----------

  function SwapRandom(s: State, p1: int, p2: int): State
    requires 0 <= p1 < |s.vRandom| && 0 <= p2 < |s.vRandom|
    requires s.vRandom[p1] in s.mapInfo && s.vRandom[p2] in s.mapInfo
  {
    if p1 == p2 then s else
      var id1, id2 := s.vRandom[p1], s.vRandom[p2];
      var m := s.mapInfo[id1 := s.mapInfo[id1].(nRandomPos := p2)];
      s.(mapInfo := m[id2 := m[id2].(nRandomPos := p1)], vRandom := s.vRandom[p1 := id2][p2 := id1])
  }

  /** Infos that differ in nRandomPos alone are equal for everything but vRandom. */
  ghost predicate SameButPos(m: map<int, AddrInfo>, m': map<int, AddrInfo>) {
    m.Keys == m'.Keys && forall n | n in m :: m'[n] == m[n].(nRandomPos := m'[n].nRandomPos)
  }

  lemma SwapRandomOk(s: State, p1: int, p2: int)
    requires RandomOk(s.mapInfo, s.vRandom) && 0 <= p1 < |s.vRandom| && 0 <= p2 < |s.vRandom|
    ensures var s' := SwapRandom(s, p1, p2);
            && s' == s.(mapInfo := s'.mapInfo, vRandom := s'.vRandom)
            && RandomOk(s'.mapInfo, s'.vRandom) && SameButPos(s.mapInfo, s'.mapInfo)
            && |s'.vRandom| == |s.vRandom| && s'.vRandom[p1] == s.vRandom[p2] && s'.vRandom[p2] == s.vRandom[p1]
            && forall i | 0 <= i < |s.vRandom| && i != p1 && i != p2 :: s'.vRandom[i] == s.vRandom[i]
  {
    var s' := SwapRandom(s, p1, p2);
    if p1 != p2 {
      var id1, id2 := s.vRandom[p1], s.vRandom[p2];
      assert id1 != id2;
      assert s'.mapInfo.Keys == s.mapInfo.Keys;
      assert SameButPos(s.mapInfo, s'.mapInfo);
      forall i | 0 <= i < |s'.vRandom| ensures s'.vRandom[i] in s'.mapInfo && s'.mapInfo[s'.vRandom[i]].nRandomPos == i {
        if i != p1 && i != p2 {
          assert s.vRandom[i] != id1 && s.vRandom[i] != id2;
        }
      }
      forall n | n in s'.mapInfo ensures 0 <= s'.mapInfo[n].nRandomPos < |s'.vRandom| && s'.vRandom[s'.mapInfo[n].nRandomPos] == n {
        if n != id1 && n != id2 {
          assert s.mapInfo[n].nRandomPos != p1 && s.mapInfo[n].nRandomPos != p2;
        }
      }
    }
  }

  lemma RandomIds(m: map<int, AddrInfo>, vRandom: seq<int>)
    requires RandomOk(m, vRandom)
    ensures forall i | 0 <= i < |vRandom| :: vRandom[i] in m
  {
  }

  lemma SameButPosLoose(key: Key, s: State, s': State, floating: set<int>, uncounted: int)
    requires Loose(key, s, floating, uncounted) && SameButPos(s.mapInfo, s'.mapInfo) && RandomOk(s'.mapInfo, s'.vRandom)
    requires s' == s.(mapInfo := s'.mapInfo, vRandom := s'.vRandom)
    ensures Loose(key, s', floating, uncounted)
  {
    hide AddrOk, TimesOk, TriedOk, NewOk, CountsOk, RandomOk, SameButPos;
    SamePosAddr(key, s.mapInfo, s'.mapInfo, s.mapAddr, s.nIdCount, s.vvTried);
    SamePosNew(key, s.mapInfo, s'.mapInfo, s.vvNew, floating);
    SamePosCounts(s, s', uncounted);
  }

  lemma SamePosAddr(key: Key, m: map<int, AddrInfo>, m': map<int, AddrInfo>, mapAddr: map<nat, int>, nIdCount: int, vvTried: Table)
    requires SameButPos(m, m') && AddrOk(m, mapAddr, nIdCount) && TimesOk(m) && TriedOk(key, m, vvTried)
    ensures AddrOk(m', mapAddr, nIdCount) && TimesOk(m') && TriedOk(key, m', vvTried)
  {
  }

  lemma SamePosNew(key: Key, m: map<int, AddrInfo>, m': map<int, AddrInfo>, vvNew: Table, floating: set<int>)
    requires SameButPos(m, m') && NewOk(key, m, vvNew, floating)
    ensures NewOk(key, m', vvNew, floating)
  {
    hide Slots;
  }

  lemma SamePosCounts(s: State, s': State, uncounted: int)
    requires SameButPos(s.mapInfo, s'.mapInfo) && CountsOk(s, uncounted) && s'.nTried == s.nTried && s'.nNew == s.nNew
    ensures CountsOk(s', uncounted)
  {
    assert forall n | n in s.mapInfo :: s'.mapInfo[n].fInTried == s.mapInfo[n].fInTried;
    assert TriedIds(s'.mapInfo) == TriedIds(s.mapInfo);
    assert NewIds(s'.mapInfo) == NewIds(s.mapInfo);
  }

  /** Delete: the entry moves to the end of vRandom and goes. */
  function Delete(s: State, id: int): State
    requires RandomOk(s.mapInfo, s.vRandom) && id in s.mapInfo
  {
    var s1 := SwapRandom(s, s.mapInfo[id].nRandomPos, |s.vRandom| - 1);
    s1.(vRandom := s1.vRandom[..|s1.vRandom| - 1], mapAddr := s1.mapAddr - {s.mapInfo[id].addr.ip},
        mapInfo := s1.mapInfo - {id}, nNew := s1.nNew - 1)
  }

  lemma DeleteOk(key: Key, s: State, floating: set<int>, uncounted: int, id: int)
    requires Loose(key, s, floating, uncounted) && id in s.mapInfo && !s.mapInfo[id].fInTried && s.mapInfo[id].nRefCount == 0
    ensures Loose(key, Delete(s, id), floating - {id}, uncounted)
    ensures SameButPos(s.mapInfo - {id}, Delete(s, id).mapInfo)
  {
    LooseAt(key, s, floating, uncounted, id);
    var s1 := SwappedLast(s, id);
    hide Loose, RandomOk, SameButPos, Delete;
    SameButPosLoose(key, s, s1, floating, uncounted);
    RemoveLast(key, s1, floating, uncounted, id);
    SamePosMinus(s.mapInfo, s1.mapInfo, id);
  }

  lemma SwappedLast(s: State, id: int) returns (s1: State)
    requires RandomOk(s.mapInfo, s.vRandom) && id in s.mapInfo
    ensures RandomOk(s1.mapInfo, s1.vRandom) && SameButPos(s.mapInfo, s1.mapInfo)
    ensures s1 == s.(mapInfo := s1.mapInfo, vRandom := s1.vRandom) && |s1.vRandom| > 0
    ensures id in s1.mapInfo && s1.mapInfo[id] == s.mapInfo[id].(nRandomPos := |s1.vRandom| - 1)
    ensures Delete(s, id) == s1.(vRandom := s1.vRandom[..|s1.vRandom| - 1], mapAddr := s1.mapAddr - {s1.mapInfo[id].addr.ip},
                                 mapInfo := s1.mapInfo - {id}, nNew := s1.nNew - 1)
  {
    RandomIds(s.mapInfo, s.vRandom);
    PositionIs(s.mapInfo, s.vRandom, id);
    hide RandomOk, SwapRandom, Delete, SameButPos;
    s1 := SwapRandom(s, s.mapInfo[id].nRandomPos, |s.vRandom| - 1);
    SwapRandomOk(s, s.mapInfo[id].nRandomPos, |s.vRandom| - 1);
    DeleteIs(s, s1, id);
    SamePosKeys(s.mapInfo, s1.mapInfo, id);
    PositionIs(s1.mapInfo, s1.vRandom, id);
    LastIs(s1.mapInfo, s1.vRandom, id);
  }

  lemma DeleteIs(s: State, s1: State, id: int)
    requires RandomOk(s.mapInfo, s.vRandom) && id in s.mapInfo
    requires s1 == SwapRandom(s, s.mapInfo[id].nRandomPos, |s.vRandom| - 1) && |s1.vRandom| == |s.vRandom|
    ensures Delete(s, id) == s1.(vRandom := s1.vRandom[..|s1.vRandom| - 1], mapAddr := s1.mapAddr - {s.mapInfo[id].addr.ip},
                                                     mapInfo := s1.mapInfo - {id}, nNew := s1.nNew - 1)
  {
    hide SwapRandom;
  }

  lemma PositionIs(m: map<int, AddrInfo>, vRandom: seq<int>, id: int)
    requires RandomOk(m, vRandom) && id in m
    ensures 0 <= m[id].nRandomPos < |vRandom| && vRandom[m[id].nRandomPos] == id
  {
  }

  lemma LastIs(m: map<int, AddrInfo>, vRandom: seq<int>, id: int)
    requires RandomOk(m, vRandom) && id in m && vRandom != [] && vRandom[|vRandom| - 1] == id
    ensures m[id].nRandomPos == |vRandom| - 1
  {
  }

  lemma SamePosKeys(m: map<int, AddrInfo>, m': map<int, AddrInfo>, id: int)
    requires SameButPos(m, m') && id in m
    ensures id in m' && m'[id] == m[id].(nRandomPos := m'[id].nRandomPos)
  {
  }

  lemma SamePosMinus(m: map<int, AddrInfo>, m': map<int, AddrInfo>, id: int)
    requires SameButPos(m, m')
    ensures SameButPos(m - {id}, m' - {id})
  {
    assert (m - {id}).Keys == m.Keys - {id};
  }

  lemma RemoveLast(key: Key, s: State, floating: set<int>, uncounted: int, id: int)
    requires Loose(key, s, floating, uncounted) && id in s.mapInfo && !s.mapInfo[id].fInTried && s.mapInfo[id].nRefCount == 0
    requires s.mapInfo[id].nRandomPos == |s.vRandom| - 1
    ensures Loose(key, s.(vRandom := s.vRandom[..|s.vRandom| - 1], mapAddr := s.mapAddr - {s.mapInfo[id].addr.ip},
                          mapInfo := s.mapInfo - {id}, nNew := s.nNew - 1), floating - {id}, uncounted)
  {
    hide AddrOk, RandomOk, TimesOk, TriedOk, CountsOk, NewOk;
    LooseAt(key, s, floating, uncounted, id);
    RemoveAddr(s, s.(vRandom := s.vRandom[..|s.vRandom| - 1], mapAddr := s.mapAddr - {s.mapInfo[id].addr.ip},
                     mapInfo := s.mapInfo - {id}, nNew := s.nNew - 1), uncounted, id);
    RemoveRandom(s.mapInfo, s.vRandom, id);
    RemoveTried(key, s.mapInfo, s.vvTried, id);
    IdsNotNegative(s.mapInfo, s.mapAddr, s.nIdCount);
    RemoveNew(key, s.mapInfo, s.vvNew, floating, id);
  }

  lemma RemoveAddr(s: State, s': State, uncounted: int, id: int)
    requires AddrOk(s.mapInfo, s.mapAddr, s.nIdCount) && TimesOk(s.mapInfo) && CountsOk(s, uncounted)
    requires id in s.mapInfo && !s.mapInfo[id].fInTried
    requires s'.mapInfo == s.mapInfo - {id} && s'.nTried == s.nTried && s'.nNew == s.nNew - 1
    ensures AddrOk(s.mapInfo - {id}, s.mapAddr - {s.mapInfo[id].addr.ip}, s.nIdCount) && TimesOk(s.mapInfo - {id})
    ensures CountsOk(s', uncounted)
  {
    var m := s.mapInfo - {id};
    assert m.Keys == s.mapInfo.Keys - {id};
    assert TriedIds(m) == TriedIds(s.mapInfo);
    assert NewIds(m) == NewIds(s.mapInfo) - {id};
    hide TriedIds, NewIds;
  }

  lemma RemoveRandom(m: map<int, AddrInfo>, vRandom: seq<int>, id: int)
    requires RandomOk(m, vRandom) && id in m && m[id].nRandomPos == |vRandom| - 1
    ensures RandomOk(m - {id}, vRandom[..|vRandom| - 1])
  {
    var m' := m - {id};
    assert m'.Keys == m.Keys - {id};
  }

  lemma RemoveTried(key: Key, m: map<int, AddrInfo>, vvTried: Table, id: int)
    requires TriedOk(key, m, vvTried) && id in m && !m[id].fInTried
    ensures TriedOk(key, m - {id}, vvTried)
  {
  }

  lemma RemoveNew(key: Key, m: map<int, AddrInfo>, vvNew: Table, floating: set<int>, id: int)
    requires NewOk(key, m, vvNew, floating) && id in m && m[id].nRefCount == 0 && -1 !in m
    ensures NewOk(key, m - {id}, vvNew, floating - {id})
  {
    assert RefOk(m[id], id, vvNew, id in floating);
    assert Slots(vvNew, id) == {};
    assert forall x | x in vvNew && vvNew[x] == id :: x in Slots(vvNew, id);
    hide Slots;
  }

  /** Create: a new entry that is in no table yet. */
  function Create(s: State, info: AddrInfo): State {
    var id := s.nIdCount;
    s.(nIdCount := id + 1, mapInfo := s.mapInfo[id := info.(nRandomPos := |s.vRandom|)],
       mapAddr := s.mapAddr[info.addr.ip := id], vRandom := s.vRandom + [id])
  }

  predicate IsNewInfo(info: AddrInfo) {
    info.nRefCount == 0 && !info.fInTried && info.nLastTry >= 0 && info.nLastSuccess >= 0
  }

  lemma CreateOk(key: Key, s: State, floating: set<int>, uncounted: int, info: AddrInfo)
    requires Loose(key, s, floating, uncounted) && info.addr.ip !in s.mapAddr && IsNewInfo(info)
    ensures Loose(key, Create(s, info), floating + {s.nIdCount}, uncounted + 1)
    ensures s.nIdCount !in s.mapInfo
  {
    var s', id := Create(s, info), s.nIdCount;
    assert id !in s.mapInfo;
    hide AddrOk, RandomOk, TimesOk, TriedOk, NewOk, CountsOk;
    CreateAddr(s, info);
    CreateRandom(s.mapInfo, s.vRandom, id, info);
    CreateTried(key, s, info);
    CreateNew(key, s.mapInfo, s.vvNew, floating, id, info.(nRandomPos := |s.vRandom|));
    CreateCounts(s, uncounted, info);
  }

  lemma CreateNew(key: Key, m: map<int, AddrInfo>, vvNew: Table, floating: set<int>, id: int, info: AddrInfo)
    requires NewOk(key, m, vvNew, floating) && id !in m && id != -1 && info.nRefCount == 0 && !info.fInTried
    ensures NewOk(key, m[id := info], vvNew, floating + {id})
  {
    assert Slots(vvNew, id) == {};
    hide Slots;
  }

  lemma CreateCounts(s: State, uncounted: int, info: AddrInfo)
    requires CountsOk(s, uncounted) && s.nIdCount !in s.mapInfo && !info.fInTried
    ensures CountsOk(Create(s, info), uncounted + 1)
  {
    var m := Create(s, info).mapInfo;
    assert TriedIds(m) == TriedIds(s.mapInfo);
    assert NewIds(m) == NewIds(s.mapInfo) + {s.nIdCount};
  }

  lemma CreateAddr(s: State, info: AddrInfo)
    requires AddrOk(s.mapInfo, s.mapAddr, s.nIdCount) && info.addr.ip !in s.mapAddr
    ensures AddrOk(Create(s, info).mapInfo, Create(s, info).mapAddr, Create(s, info).nIdCount)
  {
  }

  lemma CreateRandom(m: map<int, AddrInfo>, vRandom: seq<int>, id: int, info: AddrInfo)
    requires RandomOk(m, vRandom) && TimesOk(m) && IsNewInfo(info) && id !in m
    ensures RandomOk(m[id := info.(nRandomPos := |vRandom|)], vRandom + [id]) && TimesOk(m[id := info.(nRandomPos := |vRandom|)])
  {
    var m', v := m[id := info.(nRandomPos := |vRandom|)], vRandom + [id];
    assert m'.Keys == m.Keys + {id};
    forall i | 0 <= i < |v| ensures v[i] in m' && m'[v[i]].nRandomPos == i {
      assert i < |vRandom| ==> v[i] == vRandom[i] && vRandom[i] in m;
    }
  }

  lemma CreateTried(key: Key, s: State, info: AddrInfo)
    requires TriedOk(key, s.mapInfo, s.vvTried) && IsNewInfo(info) && s.nIdCount !in s.mapInfo
    ensures TriedOk(key, Create(s, info).mapInfo, s.vvTried)
  {
  }

  lemma SlotsSet(t: Table, s: Slot, x: int, id: int)
    requires s in t
    ensures Slots(t[s := x], id) == if x == id then Slots(t, id) + {s} else Slots(t, id) - {s}
  {
  }

  /** Change an entry in fields that no other structure mirrors. */
  lemma TouchOk(key: Key, s: State, floating: set<int>, uncounted: int, id: int, info: AddrInfo)
    requires Loose(key, s, floating, uncounted) && id in s.mapInfo
    requires var i := s.mapInfo[id]; info.addr == i.addr && info.nRefCount == i.nRefCount && info.fInTried == i.fInTried && info.nRandomPos == i.nRandomPos
    requires info.nLastTry >= 0 && info.nLastSuccess >= 0 && (info.fInTried ==> info.nLastSuccess != 0)
    ensures Loose(key, s.(mapInfo := s.mapInfo[id := info]), floating, uncounted)
  {
    hide AddrOk, RandomOk, TimesOk, TriedOk, CountsOk, NewOk;
    TouchInfo(s, id, info, uncounted);
    TouchTried(key, s.mapInfo, s.vvTried, id, info);
    TouchNew(key, s.mapInfo, s.vvNew, floating, id, info);
  }

  lemma TouchInfo(s: State, id: int, info: AddrInfo, uncounted: int)
    requires id in s.mapInfo && AddrOk(s.mapInfo, s.mapAddr, s.nIdCount) && RandomOk(s.mapInfo, s.vRandom)
    requires TimesOk(s.mapInfo) && CountsOk(s, uncounted)
    requires var i := s.mapInfo[id]; info.addr == i.addr && info.fInTried == i.fInTried && info.nRandomPos == i.nRandomPos
    requires info.nLastTry >= 0 && info.nLastSuccess >= 0 && (info.fInTried ==> info.nLastSuccess != 0)
    ensures var m := s.mapInfo[id := info];
            && AddrOk(m, s.mapAddr, s.nIdCount) && RandomOk(m, s.vRandom)
            && TimesOk(m) && CountsOk(s.(mapInfo := m), uncounted)
  {
    var m := s.mapInfo[id := info];
    SameIndex(s, id, info);
    hide AddrOk, RandomOk, TimesOk;
    assert TriedIds(m) == TriedIds(s.mapInfo);
    assert NewIds(m) == NewIds(s.mapInfo);
  }

  /** An entry that keeps its address and position leaves the address map and vRandom right. */
  lemma SameIndex(s: State, id: int, info: AddrInfo)
    requires id in s.mapInfo && AddrOk(s.mapInfo, s.mapAddr, s.nIdCount) && RandomOk(s.mapInfo, s.vRandom) && TimesOk(s.mapInfo)
    requires info.addr == s.mapInfo[id].addr && info.nRandomPos == s.mapInfo[id].nRandomPos
    requires info.nLastTry >= 0 && info.nLastSuccess >= 0 && (info.fInTried ==> info.nLastSuccess != 0)
    ensures var m := s.mapInfo[id := info]; AddrOk(m, s.mapAddr, s.nIdCount) && RandomOk(m, s.vRandom) && TimesOk(m)
  {
    SameRandom(s.mapInfo, s.vRandom, id, info);
    hide RandomOk;
  }

  lemma SameRandom(m: map<int, AddrInfo>, vRandom: seq<int>, id: int, info: AddrInfo)
    requires id in m && RandomOk(m, vRandom) && info.nRandomPos == m[id].nRandomPos
    ensures RandomOk(m[id := info], vRandom)
  {
    assert m[id := info].Keys == m.Keys;
  }

  /** A change of one entry's reference count touches neither the address map, nor vRandom, nor the tried table. */
  lemma TouchCount(key: Key, s: State, s': State, id: int, count: int, uncounted: int)
    requires id in s.mapInfo && AddrOk(s.mapInfo, s.mapAddr, s.nIdCount) && RandomOk(s.mapInfo, s.vRandom)
    requires TimesOk(s.mapInfo) && TriedOk(key, s.mapInfo, s.vvTried) && CountsOk(s, uncounted)
    requires s' == s.(mapInfo := s.mapInfo[id := s.mapInfo[id].(nRefCount := count)], vvNew := s'.vvNew)
    ensures && AddrOk(s'.mapInfo, s'.mapAddr, s'.nIdCount) && RandomOk(s'.mapInfo, s'.vRandom)
            && TimesOk(s'.mapInfo) && TriedOk(key, s'.mapInfo, s'.vvTried) && CountsOk(s', uncounted)
  {
    hide AddrOk, RandomOk, TriedOk;
    var info := s.mapInfo[id].(nRefCount := count);
    assert info.nLastTry >= 0 && info.nLastSuccess >= 0 && (info.fInTried ==> info.nLastSuccess != 0);
    TouchInfo(s, id, info, uncounted);
    TouchTried(key, s.mapInfo, s.vvTried, id, info);
  }

  lemma TouchTried(key: Key, m: map<int, AddrInfo>, vvTried: Table, id: int, info: AddrInfo)
    requires TriedOk(key, m, vvTried) && id in m && info.addr == m[id].addr && info.fInTried == m[id].fInTried
    ensures TriedOk(key, m[id := info], vvTried)
  {
  }

  lemma TouchNew(key: Key, m: map<int, AddrInfo>, vvNew: Table, floating: set<int>, id: int, info: AddrInfo)
    requires NewOk(key, m, vvNew, floating) && id in m
    requires info.addr == m[id].addr && info.fInTried == m[id].fInTried && info.nRefCount == m[id].nRefCount
    ensures NewOk(key, m[id := info], vvNew, floating)
  {
    hide Slots;
  }

  /** Take an entry out of one slot of the new table. */
  function Release(s: State, slot: Slot): State
    requires slot in s.vvNew && s.vvNew[slot] in s.mapInfo
  {
    var id := s.vvNew[slot];
    s.(mapInfo := s.mapInfo[id := s.mapInfo[id].(nRefCount := s.mapInfo[id].nRefCount - 1)], vvNew := s.vvNew[slot := -1])
  }

  /** Put an entry into an empty slot of the new table. */
  function Place(s: State, slot: Slot, id: int): State
    requires id in s.mapInfo
  {
    s.(mapInfo := s.mapInfo[id := s.mapInfo[id].(nRefCount := s.mapInfo[id].nRefCount + 1)], vvNew := s.vvNew[slot := id])
  }

  lemma IdsNotNegative(m: map<int, AddrInfo>, mapAddr: map<nat, int>, nIdCount: int)
    requires AddrOk(m, mapAddr, nIdCount)
    ensures forall n | n in m :: 0 <= n < nIdCount
  {
  }

  lemma ReleaseOk(key: Key, s: State, floating: set<int>, uncounted: int, slot: Slot)
    requires Loose(key, s, floating, uncounted) && slot in s.vvNew && s.vvNew[slot] != -1
    ensures s.vvNew[slot] in s.mapInfo && s.mapInfo[s.vvNew[slot]].nRefCount >= 1
    ensures Loose(key, Release(s, slot), floating + {s.vvNew[slot]}, uncounted)
  {
    hide AddrOk, RandomOk, TimesOk, TriedOk, CountsOk, NewOk, Key.NewSlot;
    var id := s.vvNew[slot];
    IdsNotNegative(s.mapInfo, s.mapAddr, s.nIdCount);
    ReleaseNew(key, s.mapInfo, s.vvNew, floating, slot);
    TouchCount(key, s, Release(s, slot), id, s.mapInfo[id].nRefCount - 1, uncounted);
  }

  lemma ReleaseNew(key: Key, m: map<int, AddrInfo>, vvNew: Table, floating: set<int>, slot: Slot)
    requires NewOk(key, m, vvNew, floating) && slot in vvNew && vvNew[slot] != -1 && -1 !in m
    ensures vvNew[slot] in m && m[vvNew[slot]].nRefCount >= 1
    ensures var id := vvNew[slot];
            NewOk(key, m[id := m[id].(nRefCount := m[id].nRefCount - 1)], vvNew[slot := -1], floating + {id})
  {
    var id := vvNew[slot];
    assert slot in Slots(vvNew, id);
    assert !m[id].fInTried && RefOk(m[id], id, vvNew, id in floating);
    forall n | n in m ensures Slots(vvNew[slot := -1], n) == if n == id then Slots(vvNew, n) - {slot} else Slots(vvNew, n) {
      SlotsSet(vvNew, slot, -1, n);
    }
    hide Slots;
  }

  lemma PlaceOk(key: Key, s: State, floating: set<int>, uncounted: int, slot: Slot, id: int)
    requires Loose(key, s, floating, uncounted) && slot in s.vvNew && s.vvNew[slot] == -1
    requires id in s.mapInfo && !s.mapInfo[id].fInTried && s.mapInfo[id].nRefCount < NEW_BUCKETS_PER_ADDRESS
    requires slot == key.NewSlot(s.mapInfo[id].addr, slot.0)
    ensures Loose(key, Place(s, slot, id), floating - {id}, uncounted)
  {
    hide AddrOk, RandomOk, TimesOk, TriedOk, CountsOk, NewOk, Key.NewSlot;
    TouchCount(key, s, Place(s, slot, id), id, s.mapInfo[id].nRefCount + 1, uncounted);
    IdsNotNegative(s.mapInfo, s.mapAddr, s.nIdCount);
    PlaceNew(key, s.mapInfo, s.vvNew, floating, slot, id);
  }

  lemma PlaceNew(key: Key, m: map<int, AddrInfo>, vvNew: Table, floating: set<int>, slot: Slot, id: int)
    requires NewOk(key, m, vvNew, floating) && slot in vvNew && vvNew[slot] == -1 && -1 !in m
    requires id in m && !m[id].fInTried && m[id].nRefCount < NEW_BUCKETS_PER_ADDRESS && slot == key.NewSlot(m[id].addr, slot.0)
    ensures NewOk(key, m[id := m[id].(nRefCount := m[id].nRefCount + 1)], vvNew[slot := id], floating - {id})
  {
    assert RefOk(m[id], id, vvNew, id in floating) && slot !in Slots(vvNew, id);
    forall n | n in m ensures Slots(vvNew[slot := id], n) == if n == id then Slots(vvNew, n) + {slot} else Slots(vvNew, n) {
      SlotsSet(vvNew, slot, id, n);
      assert n != id ==> slot !in Slots(vvNew, n);
    }
    hide Slots;
  }

  /** Take an entry out of the tried table; it counts for neither table until it is placed again. */
  function Untry(key: Key, s: State, id: int): State
    requires id in s.mapInfo
  {
    s.(mapInfo := s.mapInfo[id := s.mapInfo[id].(fInTried := false)],
       vvTried := s.vvTried[key.TriedSlot(s.mapInfo[id].addr) := -1], nTried := s.nTried - 1)
  }

  lemma UntryOk(key: Key, s: State, floating: set<int>, uncounted: int, id: int)
    requires Loose(key, s, floating, uncounted) && id in s.mapInfo && s.mapInfo[id].fInTried
    ensures Loose(key, Untry(key, s, id), floating + {id}, uncounted + 1)
    ensures s.mapInfo[id].nRefCount == 0
  {
    hide AddrOk, RandomOk, TimesOk, TriedOk, NewOk, TriedIds, NewIds;
    var info := s.mapInfo[id].(fInTried := false);
    IdsNotNegative(s.mapInfo, s.mapAddr, s.nIdCount);
    TimesOkAt(s.mapInfo, id);
    SameIndex(s, id, info);
    TrySwitch(s, s.mapInfo[id := info], id);
    UntryTried(key, s.mapInfo, s.vvTried, id);
    UntryNew(key, s.mapInfo, s.vvNew, floating, id);
  }

  lemma UntryNew(key: Key, m: map<int, AddrInfo>, vvNew: Table, floating: set<int>, id: int)
    requires NewOk(key, m, vvNew, floating) && id in m && m[id].fInTried
    ensures NewOk(key, m[id := m[id].(fInTried := false)], vvNew, floating + {id}) && m[id].nRefCount == 0
  {
    assert RefOk(m[id], id, vvNew, id in floating);
    hide Slots;
  }

  lemma TimesOkAt(m: map<int, AddrInfo>, id: int)
    requires TimesOk(m) && id in m
    ensures m[id].nLastTry >= 0 && m[id].nLastSuccess >= 0 && (m[id].fInTried ==> m[id].nLastSuccess != 0)
  {
  }

  lemma UntryTried(key: Key, m: map<int, AddrInfo>, vvTried: Table, id: int)
    requires TriedOk(key, m, vvTried) && id in m && m[id].fInTried && -1 !in m
    ensures TriedOk(key, m[id := m[id].(fInTried := false)], vvTried[key.TriedSlot(m[id].addr) := -1])
  {
  }

  /** An entry that changes sides changes the two sets of ids by itself. */
  lemma TrySwitch(s: State, m: map<int, AddrInfo>, id: int)
    requires id in s.mapInfo && m == s.mapInfo[id := s.mapInfo[id].(fInTried := !s.mapInfo[id].fInTried)]
    ensures |TriedIds(m)| == |TriedIds(s.mapInfo)| + (if m[id].fInTried then 1 else -1)
    ensures |NewIds(m)| == |NewIds(s.mapInfo)| + (if m[id].fInTried then -1 else 1)
  {
    if m[id].fInTried {
      assert TriedIds(m) == TriedIds(s.mapInfo) + {id};
      assert NewIds(m) == NewIds(s.mapInfo) - {id};
    } else {
      assert TriedIds(m) == TriedIds(s.mapInfo) - {id};
      assert NewIds(m) == NewIds(s.mapInfo) + {id};
    }
  }

  /** Move a floating entry to its slot in the tried table. */
  function Try(key: Key, s: State, id: int): State
    requires id in s.mapInfo
  {
    s.(mapInfo := s.mapInfo[id := s.mapInfo[id].(fInTried := true)],
       vvTried := s.vvTried[key.TriedSlot(s.mapInfo[id].addr) := id], nTried := s.nTried + 1)
  }

  lemma TryOk(key: Key, s: State, floating: set<int>, uncounted: int, id: int)
    requires Loose(key, s, floating, uncounted) && id in s.mapInfo && !s.mapInfo[id].fInTried
    requires s.mapInfo[id].nRefCount == 0 && s.mapInfo[id].nLastSuccess != 0
    requires key.TriedSlot(s.mapInfo[id].addr) in s.vvTried && s.vvTried[key.TriedSlot(s.mapInfo[id].addr)] == -1
    ensures Loose(key, Try(key, s, id), floating - {id}, uncounted - 1)
  {
    hide AddrOk, RandomOk, TimesOk, TriedOk, NewOk, TriedIds, NewIds;
    var info := s.mapInfo[id].(fInTried := true);
    IdsNotNegative(s.mapInfo, s.mapAddr, s.nIdCount);
    TimesOkAt(s.mapInfo, id);
    SameIndex(s, id, info);
    TrySwitch(s, s.mapInfo[id := info], id);
    TryTried(key, s.mapInfo, s.vvTried, id);
    TryNew(key, s.mapInfo, s.vvNew, floating, id);
  }

  lemma TryTried(key: Key, m: map<int, AddrInfo>, vvTried: Table, id: int)
    requires TriedOk(key, m, vvTried) && id in m && !m[id].fInTried && id != -1
    requires key.TriedSlot(m[id].addr) in vvTried && vvTried[key.TriedSlot(m[id].addr)] == -1 && -1 !in m
    ensures TriedOk(key, m[id := m[id].(fInTried := true)], vvTried[key.TriedSlot(m[id].addr) := id])
  {
  }

  lemma TryNew(key: Key, m: map<int, AddrInfo>, vvNew: Table, floating: set<int>, id: int)
    requires NewOk(key, m, vvNew, floating) && id in m && !m[id].fInTried && m[id].nRefCount == 0
    ensures NewOk(key, m[id := m[id].(fInTried := true)], vvNew, floating - {id})
  {
    assert RefOk(m[id], id, vvNew, id in floating);
    assert forall s | s in vvNew && vvNew[s] == id :: s in Slots(vvNew, id);
    hide Slots;
  }

  /** Entries other than `id` stay, and change at most their position in vRandom. */
  ghost predicate Survive(m: map<int, AddrInfo>, m': map<int, AddrInfo>, id: int) {
    forall n | n in m && n != id :: n in m' && m'[n] == m[n].(nRandomPos := m'[n].nRandomPos)
  }

  lemma SurviveDelete(m: map<int, AddrInfo>, m': map<int, AddrInfo>, id: int)
    requires SameButPos(m - {id}, m')
    ensures Survive(m, m', id)
  {
    forall n | n in m && n != id ensures n in m' && m'[n] == m[n].(nRandomPos := m'[n].nRandomPos) {
      assert n in m - {id};
    }
  }

  /** The entry of an occupied slot. */
  lemma NewSlotEntry(key: Key, s: State, floating: set<int>, uncounted: int, slot: Slot)
    requires Loose(key, s, floating, uncounted) && slot in s.vvNew && s.vvNew[slot] != -1
    ensures s.vvNew[slot] in s.mapInfo && !s.mapInfo[s.vvNew[slot]].fInTried && s.mapInfo[s.vvNew[slot]].nRefCount >= 1
  {
    assert slot in Slots(s.vvNew, s.vvNew[slot]);
    assert RefOk(s.mapInfo[s.vvNew[slot]], s.vvNew[slot], s.vvNew, s.vvNew[slot] in floating);
  }

  lemma TriedSlotEntry(key: Key, s: State, floating: set<int>, uncounted: int, slot: Slot)
    requires Loose(key, s, floating, uncounted) && slot in s.vvTried && s.vvTried[slot] != -1
    ensures s.vvTried[slot] in s.mapInfo && s.mapInfo[s.vvTried[slot]].fInTried && key.TriedSlot(s.mapInfo[s.vvTried[slot]].addr) == slot
  {
  }

  ghost predicate NotIn(key: Key, t: Table, addr: Service, id: int, bucket: int) {
    key.NewSlot(addr, bucket) in t ==> t[key.NewSlot(addr, bucket)] != id
  }

  lemma NotInKept(key: Key, t: Table, t': Table, slot: Slot, addr: Service, id: int, n: int)
    requires (t' == t || t' == t[slot := -1]) && id >= 0
    requires forall b | 0 <= b < n :: NotIn(key, t, addr, id, b)
    ensures forall b | 0 <= b < n :: NotIn(key, t', addr, id, b)
  {
    forall b | 0 <= b < n ensures NotIn(key, t', addr, id, b) {
      assert NotIn(key, t, addr, id, b);
    }
  }

  /** An entry that is in none of the slots it could be in has no reference left. */
  lemma NoSlotLeft(key: Key, s: State, floating: set<int>, uncounted: int, id: int)
    requires Loose(key, s, floating, uncounted) && id in s.mapInfo
    requires forall b | 0 <= b < NEW_BUCKET_COUNT :: NotIn(key, s.vvNew, s.mapInfo[id].addr, id, b)
    ensures s.mapInfo[id].nRefCount == 0
  {
    assert id != -1;
    forall x | x in s.vvNew ensures 0 <= x.0 < NEW_BUCKET_COUNT {
      InTable(s.vvNew, NEW_BUCKET_COUNT, x);
    }
    assert forall x | x in s.vvNew :: NotIn(key, s.vvNew, s.mapInfo[id].addr, id, x.0);
    assert forall x | x in s.vvNew && s.vvNew[x] == id :: x == key.NewSlot(s.mapInfo[id].addr, x.0);
    assert Slots(s.vvNew, id) == {};
    assert RefOk(s.mapInfo[id], id, s.vvNew, id in floating);
  }

  lemma RefCountBounds(key: Key, s: State, floating: set<int>, uncounted: int, id: int)
    requires Loose(key, s, floating, uncounted) && id in s.mapInfo && !s.mapInfo[id].fInTried
    ensures 0 <= s.mapInfo[id].nRefCount <= NEW_BUCKETS_PER_ADDRESS
    ensures id !in floating ==> s.mapInfo[id].nRefCount >= 1
  {
    assert RefOk(s.mapInfo[id], id, s.vvNew, id in floating);
  }

  lemma SlotsInRange(key: Key, s: State, floating: set<int>, uncounted: int, a: Service)
    requires Loose(key, s, floating, uncounted)
    ensures key.TriedSlot(a) in s.vvTried && 0 <= key.triedBucket(a) < TRIED_BUCKET_COUNT && 0 <= key.position(a, false, key.triedBucket(a)) < BUCKET_SIZE
    ensures forall src :: 0 <= key.newBucket(a, src) < NEW_BUCKET_COUNT
    ensures forall b {:trigger key.position(a, true, b)} :: 0 <= key.position(a, true, b) < BUCKET_SIZE
    ensures forall b | 0 <= b < NEW_BUCKET_COUNT :: key.NewSlot(a, b) in s.vvNew
  {
  }

  lemma Float(key: Key, s: State, floating: set<int>, uncounted: int, id: int)
    requires Loose(key, s, floating, uncounted)
    ensures Loose(key, s, floating + {id}, uncounted)
  {
    hide Slots;
    assert NewOk(key, s.mapInfo, s.vvNew, floating + {id});
  }

  /** An operation may take entries out of nNew before it counts them elsewhere. */
  lemma Uncount(key: Key, s: State, floating: set<int>, uncounted: int, k: int)
    requires Loose(key, s, floating, uncounted)
    ensures Loose(key, s.(nNew := s.nNew - k), floating, uncounted + k)
  {
  }
}
