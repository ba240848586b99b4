/**
 The address manager (src/addrman.cpp:76-332, 451-490): every operation keeps the invariant of Check_,
 whatever the random numbers are, and none of its assertions can fail.
 */
module AddrMan {
  import opened Options
  import opened AddrTables

  /** A number below n: any one. */
  method GetRandInt(n: int) returns (r: int)
    requires n > 0
    ensures 0 <= r < n
  {
    r :| 0 <= r < n;
  }

  const ADDRMAN_HORIZON_DAYS := 30
  const ADDRMAN_RETRIES := 3
  const ADDRMAN_MAX_FAILURES := 10
  const ADDRMAN_MIN_FAIL_DAYS := 7
  const ADDRMAN_GETADDR_MAX_PCT := 23
  const ADDRMAN_GETADDR_MAX := 2500

  predicate IsTerrible(info: AddrInfo, nNow: int) {
    if info.nLastTry != 0 && info.nLastTry >= nNow - 60 then false
    else if info.nTime > nNow + 10 * 60 then true
    else if info.nTime == 0 || nNow - info.nTime > ADDRMAN_HORIZON_DAYS * 24 * 60 * 60 then true
    else if info.nLastSuccess == 0 && info.nAttempts >= ADDRMAN_RETRIES then true
    else nNow - info.nLastSuccess > ADDRMAN_MIN_FAIL_DAYS * 24 * 60 * 60 && info.nAttempts >= ADDRMAN_MAX_FAILURES
  }

  const DAY := 86_400

  /** An entry is terrible unless it was tried in the last minute: if it comes from more than ten minutes ahead, was not
      seen for a month, never answered in three attempts, or failed ten times in a row for a week. */
  lemma TerribleIff(info: AddrInfo, nNow: int)
    ensures IsTerrible(info, nNow) <==>
              && (info.nLastTry == 0 || nNow - info.nLastTry > 60)
              && (info.nTime > nNow + 600 || info.nTime == 0 || nNow - info.nTime > 30 * DAY
                  || (info.nLastSuccess == 0 && info.nAttempts >= 3) || (nNow - info.nLastSuccess > 7 * DAY && info.nAttempts >= 10))
  {
  }

  ghost function TableOf(a: array2<int>): (t: Table)
    reads a
    ensures forall b, p :: (b, p) in t <==> 0 <= b < a.Length0 && 0 <= p < a.Length1
    ensures forall b, p | 0 <= b < a.Length0 && 0 <= p < a.Length1 :: t[(b, p)] == a[b, p]
  {
    map b, p | 0 <= b < a.Length0 && 0 <= p < a.Length1 :: (b, p) := a[b, p]
  }

  lemma EmptyTable(a: array2<int>, buckets: int)
    requires a.Length0 == buckets && a.Length1 == BUCKET_SIZE
    requires forall b, p | 0 <= b < buckets && 0 <= p < BUCKET_SIZE :: a[b, p] == -1
    ensures FullTable(TableOf(a), buckets) && forall x | x in TableOf(a) :: TableOf(a)[x] == -1
  {
    forall x | x in TableOf(a) ensures TableOf(a)[x] == -1 {
      assert x == (x.0, x.1);
    }
  }

  /** What an address message says of one address. */
  datatype Address = Address(service: Service, nServices: set<nat>, nTime: int)

  function NewInfo(addr: Address, source: nat): AddrInfo {
    AddrInfo(addr.service, source, addr.nServices, addr.nTime, 0, 0, 0, 0, false, -1)
  }

  function Max(a: int, b: int): int {
    if a < b then b else a
  }

  function Refreshed(info: AddrInfo, addr: Address, nTimePenalty: int, nNow: int): AddrInfo {
    var interval := if nNow - addr.nTime < 24 * 60 * 60 then 60 * 60 else 24 * 60 * 60;
    var stale := addr.nTime != 0 && (info.nTime == 0 || info.nTime < addr.nTime - interval - nTimePenalty);
    info.(nTime := if stale then Max(0, addr.nTime - nTimePenalty) else info.nTime, nServices := info.nServices + addr.nServices)
  }

  lemma RefreshedFields(info: AddrInfo, addr: Address, nTimePenalty: int, nNow: int)
    ensures var r := Refreshed(info, addr, nTimePenalty, nNow);
            r == info.(nTime := r.nTime, nServices := r.nServices)
  {
  }

  lemma RefreshedIs(info: AddrInfo, r: AddrInfo, addr: Address, nTimePenalty: int, nNow: int, interval: int)
    requires interval == if nNow - addr.nTime < 24 * 60 * 60 then 60 * 60 else 24 * 60 * 60
    requires if addr.nTime != 0 && (info.nTime == 0 || info.nTime < addr.nTime - interval - nTimePenalty)
             then r == info.(nTime := Max(0, addr.nTime - nTimePenalty), nServices := info.nServices + addr.nServices)
             else r == info.(nServices := info.nServices + addr.nServices)
    ensures r == Refreshed(info, addr, nTimePenalty, nNow)
  {
  }

  /** The id of an address that is known under the same port. */
  function KnownAs(mapInfo: map<int, AddrInfo>, mapAddr: map<nat, int>, addr: Service): (r: Option<int>)
    ensures r.Some? ==> r.value in mapInfo && mapInfo[r.value].addr == addr
  {
    if addr.ip in mapAddr && mapAddr[addr.ip] in mapInfo && mapInfo[mapAddr[addr.ip]].addr == addr then Some(mapAddr[addr.ip]) else None
  }

  /** s1 is s with a new entry for an address. */
  ghost predicate Added(s: State, s1: State, nId: int, addr: Address, source: nat, nTimePenalty: int) {
    && nId !in s.mapInfo && s1.mapInfo.Keys == s.mapInfo.Keys + {nId}
    && s1.mapInfo[nId] == NewInfo(addr, source).(nTime := Max(0, addr.nTime - nTimePenalty), nRandomPos := s1.mapInfo[nId].nRandomPos)
    && (forall n | n in s.mapInfo :: s1.mapInfo[n] == s.mapInfo[n].(nRandomPos := s1.mapInfo[n].nRandomPos))
    && s1.vvNew == s.vvNew
  }

  lemma AddedHolds(s: State, s1: State, s2: State, nId: int, addr: Address, source: nat, nTimePenalty: int)
    requires nId !in s.mapInfo && s1.mapInfo.Keys == s.mapInfo.Keys + {nId} && -1 !in s1.mapInfo && Survive(s.mapInfo, s1.mapInfo, -1)
    requires s1.mapInfo[nId] == NewInfo(addr, source).(nRandomPos := s1.mapInfo[nId].nRandomPos)
    requires s2.mapInfo == s1.mapInfo[nId := s1.mapInfo[nId].(nTime := Max(0, s1.mapInfo[nId].nTime - nTimePenalty))]
    requires s2.vvNew == s1.vvNew == s.vvNew
    ensures Added(s, s2, nId, addr, source, nTimePenalty)
  {
  }

  lemma AddedAt(s: State, s1: State, nId: int, addr: Address, source: nat, nTimePenalty: int)
    requires Added(s, s1, nId, addr, source, nTimePenalty)
    ensures nId in s1.mapInfo && !s1.mapInfo[nId].fInTried && s1.mapInfo[nId].nRefCount == 0
  {
  }

  function Min(a: int, b: int): int {
    if a < b then a else b
  }

  /** An entry that may be told to others, and what is told. */
  ghost predicate Shares(m: map<int, AddrInfo>, id: int, a: Address, nNow: int) {
    id in m && !IsTerrible(m[id], nNow) && a == Address(m[id].addr, m[id].nServices, m[id].nTime)
  }

  /** `ids` are the entries among `seen` that are not terrible, each once. */
  ghost predicate Chosen(m: map<int, AddrInfo>, seen: seq<int>, ids: seq<int>, vAddr: seq<Address>, nNow: int) {
    && |ids| == |vAddr|
    && (forall i, j | 0 <= i < j < |ids| :: ids[i] != ids[j])
    && (forall i | 0 <= i < |ids| :: ids[i] in seen && Shares(m, ids[i], vAddr[i], nNow))
    && (forall n | n in seen && n in m && !IsTerrible(m[n], nNow) :: n in ids)
  }

  lemma ChosenMore(m: map<int, AddrInfo>, seen: seq<int>, ids: seq<int>, vAddr: seq<Address>, nNow: int, n: int)
    requires Chosen(m, seen, ids, vAddr, nNow) && n in m && n !in seen
    ensures if IsTerrible(m[n], nNow) then Chosen(m, seen + [n], ids, vAddr, nNow)
            else Chosen(m, seen + [n], ids + [n], vAddr + [Address(m[n].addr, m[n].nServices, m[n].nTime)], nNow)
  {
    hide IsTerrible;
  }

  lemma RandomIs(key: Key, s: State)
    requires Inv(key, s)
    ensures RandomOk(s.mapInfo, s.vRandom) && |s.vRandom| == |s.mapInfo|
  {
  }

  lemma SamePosRefl(m: map<int, AddrInfo>)
    ensures SameButPos(m, m)
  {
  }

  lemma SamePosTrans(m: map<int, AddrInfo>, m1: map<int, AddrInfo>, m2: map<int, AddrInfo>)
    requires SameButPos(m, m1) && SameButPos(m1, m2)
    ensures SameButPos(m, m2)
  {
  }

  lemma SamePosAt(m: map<int, AddrInfo>, m': map<int, AddrInfo>, n: int)
    requires SameButPos(m, m') && n in m'
    ensures n in m && m'[n] == m[n].(nRandomPos := m'[n].nRandomPos)
  {
  }

  lemma SameTerrible(info: AddrInfo, info': AddrInfo, nNow: int)
    requires info' == info.(nRandomPos := info'.nRandomPos)
    ensures IsTerrible(info', nNow) == IsTerrible(info, nNow)
  {
  }

  lemma RandomDistinct(m: map<int, AddrInfo>, vRandom: seq<int>, n: nat)
    requires RandomOk(m, vRandom) && n < |vRandom|
    ensures vRandom[n] !in vRandom[..n]
  {
    forall i | 0 <= i < n ensures vRandom[..n][i] != vRandom[n] {
      assert m[vRandom[i]].nRandomPos == i;
    }
  }

  lemma SeenAll(m: map<int, AddrInfo>, m': map<int, AddrInfo>, vRandom: seq<int>)
    requires SameButPos(m, m') && RandomOk(m', vRandom)
    ensures forall n | n in m :: n in vRandom
  {
    assert forall n | n in m :: n in m';
  }

  /** May an entry with this many references take a slot from its occupant? */
  predicate GivesWay(occupant: AddrInfo, nRefCount: int, nNow: int) {
    IsTerrible(occupant, nNow) || (occupant.nRefCount > 1 && nRefCount == 0)
  }

  /** The entry holds its slot exactly if that was empty, its own, or its occupant gives way; nothing else is lost but that occupant. */
  ghost predicate Seated(key: Key, s: State, s': State, nId: int, source: nat, nNow: int)
    requires nId in s.mapInfo
  {
    var info := s.mapInfo[nId];
    var slot := key.NewSlot(info.addr, key.newBucket(info.addr, source));
    && slot in s.vvNew && (s.vvNew[slot] != -1 ==> s.vvNew[slot] in s.mapInfo)
    && var wins := s.vvNew[slot] == nId || s.vvNew[slot] == -1 || GivesWay(s.mapInfo[s.vvNew[slot]], info.nRefCount, nNow);
    && s'.vvNew == (if wins then s.vvNew[slot := nId] else s.vvNew)
    && (nId in s'.mapInfo <==> wins || info.nRefCount > 0)
    && (nId in s'.mapInfo ==>
          s'.mapInfo[nId] == info.(nRefCount := if wins && s.vvNew[slot] != nId then info.nRefCount + 1 else info.nRefCount,
                                   nRandomPos := s'.mapInfo[nId].nRandomPos))
    && StayBut(s.mapInfo, s'.mapInfo, {nId} + if wins then {s.vvNew[slot]} else {})
  }

  class CAddrMan {
    const nKey: Key
    var nIdCount: int
    var mapInfo: map<int, AddrInfo>
    var mapAddr: map<nat, int>
    var vRandom: seq<int>
    var nTried: int
    const vvTried: array2<int>
    var nNew: int
    const vvNew: array2<int>

    ghost predicate Shaped() {
      && vvTried.Length0 == TRIED_BUCKET_COUNT && vvTried.Length1 == BUCKET_SIZE
      && vvNew.Length0 == NEW_BUCKET_COUNT && vvNew.Length1 == BUCKET_SIZE
      && vvTried != vvNew
    }

    ghost function S(): State
      requires Shaped()
      reads this, vvTried, vvNew
    {
      State(mapInfo, mapAddr, vRandom, nIdCount,
            nTried, TableOf(vvTried), nNew, TableOf(vvNew))
    }

    ghost predicate Valid()
      reads this, vvTried, vvNew
    {
      Shaped() && Inv(nKey, S())
    }

    constructor (key: Key)
      requires key.Ranges()
      ensures Valid() && nKey == key && mapInfo == map[]
      ensures fresh(vvTried) && fresh(vvNew)
    {
      nKey := key;
      nIdCount, nTried, nNew := 0, 0, 0;
      mapInfo, mapAddr, vRandom := map[], map[], [];
      vvTried := new int[TRIED_BUCKET_COUNT, BUCKET_SIZE]((i, j) => -1);
      vvNew := new int[NEW_BUCKET_COUNT, BUCKET_SIZE]((i, j) => -1);
      new;
      hide Loose, Inv, Key.Ranges;
      EmptyState();
    }

    lemma EmptyState()
      requires Shaped() && nKey.Ranges() && mapInfo == map[] && mapAddr == map[] && vRandom == [] && nIdCount == nTried == nNew == 0
      requires forall b, p | 0 <= b < TRIED_BUCKET_COUNT && 0 <= p < BUCKET_SIZE :: vvTried[b, p] == -1
      requires forall b, p | 0 <= b < NEW_BUCKET_COUNT && 0 <= p < BUCKET_SIZE :: vvNew[b, p] == -1
      ensures Inv(nKey, S())
    {
      hide Inv, Loose, Key.Ranges;
      EmptyTable(vvTried, TRIED_BUCKET_COUNT);
      EmptyTable(vvNew, NEW_BUCKET_COUNT);
      hide FullTable, TableOf;
      EmptyInv(nKey, S());
    }

    method SetNew(b: int, p: int, id: int)
      requires Shaped() && 0 <= b < NEW_BUCKET_COUNT && 0 <= p < BUCKET_SIZE
      modifies vvNew
      ensures S() == old(S()).(vvNew := old(S()).vvNew[(b, p) := id])
    {
      vvNew[b, p] := id;
      assert TableOf(vvNew) == old(TableOf(vvNew))[(b, p) := id];
    }

    method SetTried(b: int, p: int, id: int)
      requires Shaped() && 0 <= b < TRIED_BUCKET_COUNT && 0 <= p < BUCKET_SIZE
      modifies vvTried
      ensures S() == old(S()).(vvTried := old(S()).vvTried[(b, p) := id])
    {
      vvTried[b, p] := id;
      assert TableOf(vvTried) == old(TableOf(vvTried))[(b, p) := id];
    }

    method Find(ip: nat) returns (id: Option<int>)
      ensures id == if ip in mapAddr && mapAddr[ip] in mapInfo then Some(mapAddr[ip]) else None
    {
      if ip !in mapAddr {
        return None;
      }
      var n := mapAddr[ip];
      id := if n in mapInfo then Some(n) else None;
    }

    method SwapRandomPos(nRndPos1: int, nRndPos2: int)
      requires Shaped() && RandomOk(mapInfo, vRandom) && 0 <= nRndPos1 < |vRandom| && 0 <= nRndPos2 < |vRandom|
      modifies this`mapInfo, this`vRandom
      ensures S() == SwapRandom(old(S()), nRndPos1, nRndPos2) && |vRandom| == old(|vRandom|)
    {
      hide RandomOk, TableOf;
      RandomIds(mapInfo, vRandom);
      if nRndPos1 == nRndPos2 {
        return;
      }
      var nId1, nId2 := vRandom[nRndPos1], vRandom[nRndPos2];
      mapInfo := mapInfo[nId1 := mapInfo[nId1].(nRandomPos := nRndPos2)];
      mapInfo := mapInfo[nId2 := mapInfo[nId2].(nRandomPos := nRndPos1)];
      vRandom := vRandom[nRndPos1 := nId2];
      vRandom := vRandom[nRndPos2 := nId1];
    }

    method DeleteEntry(nId: int, ghost floating: set<int>, ghost uncounted: int)
      requires Shaped() && Loose(nKey, S(), floating, uncounted)
      requires nId in mapInfo && !mapInfo[nId].fInTried && mapInfo[nId].nRefCount == 0
      modifies this`mapInfo, this`mapAddr, this`vRandom, this`nNew
      ensures Loose(nKey, S(), floating - {nId}, uncounted)
      ensures SameButPos(old(mapInfo) - {nId}, mapInfo)
    {
      hide Loose, SameButPos, SwapRandom, RandomOk, TableOf;
      ghost var s := S();
      LooseAt(nKey, s, floating, uncounted, nId);
      DeleteOk(nKey, s, floating, uncounted, nId);
      var ip := mapInfo[nId].addr.ip;
      SwapRandomPos(mapInfo[nId].nRandomPos, |vRandom| - 1);
      vRandom := vRandom[..|vRandom| - 1];
      mapAddr := mapAddr - {ip};
      mapInfo := mapInfo - {nId};
      nNew := nNew - 1;
      assert S() == Delete(s, nId);
    }

    /** The slot's entry loses one reference. */
    method Unlink(b: int, p: int, ghost floating: set<int>, ghost uncounted: int)
      requires Shaped() && Loose(nKey, S(), floating, uncounted)
      requires 0 <= b < NEW_BUCKET_COUNT && 0 <= p < BUCKET_SIZE && vvNew[b, p] != -1
      modifies this`mapInfo, vvNew
      ensures old(vvNew[b, p]) in old(mapInfo) && !old(mapInfo[vvNew[b, p]].fInTried)
      ensures mapInfo.Keys == old(mapInfo).Keys && Survive(old(mapInfo), mapInfo, old(vvNew[b, p]))
      ensures S().vvNew == old(S()).vvNew[(b, p) := -1]
      ensures mapInfo[old(vvNew[b, p])] == old(mapInfo[vvNew[b, p]]).(nRefCount := mapInfo[old(vvNew[b, p])].nRefCount)
      ensures Loose(nKey, S(), floating + {old(vvNew[b, p])}, uncounted)
    {
      hide Loose, Key.NewSlot, Release, Survive, TableOf;
      ghost var s := S();
      NewSlotEntry(nKey, s, floating, uncounted, (b, p));
      ReleaseOk(nKey, s, floating, uncounted, (b, p));
      var nId := vvNew[b, p];
      mapInfo := mapInfo[nId := mapInfo[nId].(nRefCount := mapInfo[nId].nRefCount - 1)];
      SetNew(b, p, -1);
      ReleaseIs(s, S(), (b, p));
      SurviveOne(s.mapInfo, mapInfo, nId);
    }

    /** Free a slot of the new table; an entry that loses its last slot is deleted. */
    method ClearNew(b: int, p: int, ghost floating: set<int>, ghost uncounted: int)
      requires Shaped() && Loose(nKey, S(), floating, uncounted)
      requires 0 <= b < NEW_BUCKET_COUNT && 0 <= p < BUCKET_SIZE && vvNew[b, p] !in floating
      modifies this`mapInfo, this`mapAddr, this`vRandom, this`nNew, vvNew
      ensures Loose(nKey, S(), floating, uncounted)
      ensures S().vvNew == old(S()).vvNew[(b, p) := -1]
      ensures Survive(old(mapInfo), mapInfo, old(vvNew[b, p]))
    {
      hide Loose, SameButPos, Survive, Key.NewSlot, SwapRandom, RandomOk, Release, TableOf;
      ghost var s := S();
      if vvNew[b, p] != -1 {
        var nIdDelete := vvNew[b, p];
        Unlink(b, p, floating, uncounted);
        ghost var m := mapInfo;
        if mapInfo[nIdDelete].nRefCount == 0 {
          DeleteEntry(nIdDelete, floating + {nIdDelete}, uncounted);
          assert floating + {nIdDelete} - {nIdDelete} == floating;
          SurviveDelete(m, mapInfo, nIdDelete);
          SurviveAfter(s.mapInfo, m, mapInfo, nIdDelete);
        } else {
          Refloat(nKey, S(), floating, uncounted, nIdDelete);
        }
      } else {
        assert s.vvNew[(b, p) := -1] == s.vvNew;
        SurviveOne(s.mapInfo, mapInfo, -1);
      }
    }

    /** An entry takes an empty slot of the new table. */
    method Put(b: int, p: int, nId: int, ghost floating: set<int>, ghost uncounted: int)
      requires Shaped() && Loose(nKey, S(), floating, uncounted)
      requires 0 <= b < NEW_BUCKET_COUNT && 0 <= p < BUCKET_SIZE && vvNew[b, p] == -1
      requires nId in mapInfo && !mapInfo[nId].fInTried && mapInfo[nId].nRefCount < NEW_BUCKETS_PER_ADDRESS
      requires p == nKey.position(mapInfo[nId].addr, true, b)
      modifies this`mapInfo, vvNew
      ensures mapInfo == old(mapInfo)[nId := old(mapInfo)[nId].(nRefCount := old(mapInfo)[nId].nRefCount + 1)]
      ensures S().vvNew == old(S()).vvNew[(b, p) := nId]
      ensures Loose(nKey, S(), floating - {nId}, uncounted)
    {
      hide Loose, TableOf, Key.NewSlot, Key.TriedSlot, Key.Ranges, Place;
      ghost var s := S();
      SlotIs(nKey, mapInfo[nId].addr, b);
      PlaceOk(nKey, s, floating, uncounted, (b, p), nId);
      mapInfo := mapInfo[nId := mapInfo[nId].(nRefCount := mapInfo[nId].nRefCount + 1)];
      SetNew(b, p, nId);
      PlaceIs(s, S(), (b, p), nId);
    }

    /** The tried entry of a slot leaves it. */
    method Untry(kb: int, kp: int, nIdEvict: int, ghost floating: set<int>, ghost uncounted: int)
      requires Shaped() && Loose(nKey, S(), floating, uncounted)
      requires 0 <= kb < TRIED_BUCKET_COUNT && 0 <= kp < BUCKET_SIZE && vvTried[kb, kp] == nIdEvict != -1
      modifies this`mapInfo, this`nTried, vvTried
      ensures nIdEvict in old(mapInfo) && old(mapInfo)[nIdEvict].fInTried && old(mapInfo)[nIdEvict].nRefCount == 0
      ensures mapInfo == old(mapInfo)[nIdEvict := old(mapInfo)[nIdEvict].(fInTried := false)]
      ensures S().vvTried == old(S()).vvTried[(kb, kp) := -1]
      ensures Loose(nKey, S(), floating + {nIdEvict}, uncounted + 1)
    {
      hide Loose, TableOf, Key.NewSlot, Key.TriedSlot, Key.Ranges;
      ghost var s := S();
      TriedSlotEntry(nKey, s, floating, uncounted, (kb, kp));
      UntryOk(nKey, s, floating, uncounted, nIdEvict);
      mapInfo := mapInfo[nIdEvict := mapInfo[nIdEvict].(fInTried := false)];
      SetTried(kb, kp, -1);
      nTried := nTried - 1;
      assert S() == AddrTables.Untry(nKey, s, nIdEvict);
    }

    /** An entry that is in no table goes to its place in the new table; whatever holds it goes. */
    method Settle(nId: int, ghost floating: set<int>, ghost uncounted: int) returns (ghost slot: Slot)
      requires Shaped() && Loose(nKey, S(), floating, uncounted)
      requires nId in floating && forall n | n in floating :: n in mapInfo && mapInfo[n].nRefCount == 0 && !mapInfo[n].fInTried
      modifies this`mapInfo, this`mapAddr, this`vRandom, this`nNew, vvNew
      ensures slot == nKey.NewSlot(old(mapInfo)[nId].addr, nKey.newBucket(old(mapInfo)[nId].addr, old(mapInfo)[nId].source))
      ensures slot in old(S()).vvNew && S().vvNew == old(S()).vvNew[slot := nId] && old(S()).vvNew[slot] !in floating
      ensures nId in mapInfo && mapInfo[nId] == old(mapInfo)[nId].(nRefCount := 1, nRandomPos := mapInfo[nId].nRandomPos)
      ensures StayBut(old(mapInfo), mapInfo, {nId, old(S()).vvNew[slot]})
      ensures Loose(nKey, S(), floating - {nId}, uncounted)
    {
      hide Loose, SameButPos, SwapRandom, RandomOk, TableOf, Place, Key.NewSlot, Key.TriedSlot, Key.Ranges, Survive, StayBut;
      ghost var s := S();
      var info := mapInfo[nId];
      SlotsInRange(nKey, s, floating, uncounted, info.addr);
      var ub := nKey.newBucket(info.addr, info.source);
      var up := nKey.position(info.addr, true, ub);
      slot := nKey.NewSlot(info.addr, ub);
      SlotIs(nKey, info.addr, ub);
      OccupantRefs(nKey, s, floating, uncounted, slot);
      assert s.vvNew[slot] == vvNew[ub, up];
      ClearNew(ub, up, floating, uncounted);
      assert vvNew[ub, up] == S().vvNew[(ub, up)];
      ghost var m := mapInfo;
      SurviveAt(s.mapInfo, m, s.vvNew[slot], nId);
      Put(ub, up, nId, floating, uncounted);
      SettleMaps(s.mapInfo, m, mapInfo, nId, s.vvNew[slot]);
    }

    /** The tried entry of a slot goes back to the new table; whatever holds its place there goes. */
    method Evict(kb: int, kp: int, nIdEvict: int, ghost floating: set<int>, ghost uncounted: int)
      requires Shaped() && Loose(nKey, S(), floating, uncounted)
      requires 0 <= kb < TRIED_BUCKET_COUNT && 0 <= kp < BUCKET_SIZE && vvTried[kb, kp] == nIdEvict != -1
      requires forall n | n in floating :: n in mapInfo && mapInfo[n].nRefCount == 0 && !mapInfo[n].fInTried
      modifies this`mapInfo, this`mapAddr, this`vRandom, this`nNew, this`nTried, vvNew, vvTried
      ensures S().vvTried == old(S()).vvTried[(kb, kp) := -1]
      ensures Evicted(nKey, old(S()), S(), {}, nIdEvict) && old(mapInfo)[nIdEvict].fInTried
      ensures forall n | n in floating :: n in mapInfo && mapInfo[n] == old(mapInfo)[n].(nRandomPos := mapInfo[n].nRandomPos)
      ensures Loose(nKey, S(), floating, uncounted)
    {
      hide Loose, TableOf, Key.NewSlot, Key.TriedSlot, Key.Ranges, Evicted, StayBut;
      ghost var s := S();
      Untry(kb, kp, nIdEvict, floating, uncounted);
      ghost var s1 := S();
      ghost var slot := Settle(nIdEvict, floating + {nIdEvict}, uncounted + 1);
      assert floating + {nIdEvict} - {nIdEvict} == floating;
      Uncount(nKey, S(), floating, uncounted + 1, -1);
      nNew := nNew + 1;
      EvictMaps(s.mapInfo, s1.mapInfo, mapInfo, nIdEvict, s.vvNew[slot], floating);
      EvictedHolds(nKey, s, S(), nIdEvict, slot);
    }

    /** Take an entry out of every slot of the new table it is in. */
    method UnlinkAll(nId: int)
      requires Valid() && nId in mapInfo && !mapInfo[nId].fInTried
      modifies this`mapInfo, vvNew
      ensures Loose(nKey, S(), {nId}, 0)
      ensures mapInfo.Keys == old(mapInfo).Keys && mapInfo[nId].nRefCount == 0
      ensures Cleared(old(S()).vvNew, S().vvNew, nId)
      ensures Survive(old(mapInfo), mapInfo, nId) && mapInfo[nId] == old(mapInfo)[nId].(nRefCount := 0)
    {
      hide Loose, TableOf, Key.NewSlot, Key.TriedSlot, Key.Ranges, Survive, NotIn;
      var info := mapInfo[nId];
      ghost var m, t0 := mapInfo, S().vvNew;
      Float(nKey, S(), {}, 0, nId);
      assert {} + {nId} == {nId};
      SurviveOne(m, m, nId);
      for bucket := 0 to NEW_BUCKET_COUNT
        invariant Loose(nKey, S(), {nId}, 0) && mapInfo.Keys == m.Keys && Survive(m, mapInfo, nId)
        invariant Cleared(t0, S().vvNew, nId)
        invariant mapInfo[nId] == info.(nRefCount := mapInfo[nId].nRefCount)
        invariant forall b | 0 <= b < bucket :: NotIn(nKey, S().vvNew, info.addr, nId, b)
      {
        SlotsInRange(nKey, S(), {nId}, 0, info.addr);
        var pos := nKey.position(info.addr, true, bucket);
        ghost var t, m1 := S().vvNew, mapInfo;
        IdNotNegative(nKey, S(), {nId}, 0, nId);
        SlotIs(nKey, info.addr, bucket);
        assert t[(bucket, pos)] == vvNew[bucket, pos];
        if vvNew[bucket, pos] == nId {
          Unlink(bucket, pos, {nId}, 0);
          assert {nId} + {nId} == {nId};
          SurviveAfter(m, m1, mapInfo, nId);
        }
        NotInKept(nKey, t, S().vvNew, (bucket, pos), info.addr, nId, bucket);
        NotInNow(nKey, S().vvNew, info.addr, nId, bucket);
      }
      NoSlotLeft(nKey, S(), {nId}, 0, nId);
    }

    /**
     Move an entry from the new tables to its slot in the tried table. The entry that held the slot goes back to
     the new table and takes the place of the entry there; every other entry stays.
     */
    method MakeTried(nId: int)
      requires Valid() && nId in mapInfo && !mapInfo[nId].fInTried && mapInfo[nId].nLastSuccess != 0
      modifies this`mapInfo, this`mapAddr, this`vRandom, this`nNew, this`nTried, vvNew, vvTried
      ensures Valid()
      ensures TriedEffect(nKey, old(S()), S(), nId)
    {
      hide Loose, TableOf, Key.NewSlot, Key.TriedSlot, Key.Ranges, Survive, Evicted, AddrTables.Try, TriedEffect;
      ghost var s := S();
      NoMinusOne(nKey, s, {}, 0);
      UnlinkAll(nId);
      Uncount(nKey, S(), {nId}, 0, 1);
      nNew := nNew - 1;
      ghost var s1 := S();
      var info := mapInfo[nId];
      SlotsInRange(nKey, s1, {nId}, 1, info.addr);
      var kb := nKey.triedBucket(info.addr);
      var kp := nKey.position(info.addr, false, kb);
      TriedSlotIs(nKey, info.addr);
      assert s1.vvTried[(kb, kp)] == vvTried[kb, kp];
      ghost var nIdEvict := vvTried[kb, kp];
      if vvTried[kb, kp] != -1 {
        Evict(kb, kp, vvTried[kb, kp], {nId}, 1);
      }
      ghost var s2 := S();
      assert s2.vvTried[(kb, kp)] == -1;
      assert s2.vvTried == s1.vvTried[(kb, kp) := -1];
      assert vvTried[kb, kp] == -1;
      TryOk(nKey, s2, {nId}, 1, nId);
      SetTried(kb, kp, nId);
      nTried := nTried + 1;
      mapInfo := mapInfo[nId := mapInfo[nId].(fInTried := true)];
      TryIs(nKey, s2, S(), nId);
      assert {nId} - {nId} == {};
      TriedEffectHolds(nKey, s, s1, s2, S(), nId, nIdEvict);
    }

    /** Find a bucket of the new table that holds an entry, from a random bucket on. It never fails. */
    method FindBucket(nId: int) returns (nUBucket: int)
      requires Valid() && nId in mapInfo && !mapInfo[nId].fInTried
      ensures 0 <= nUBucket < NEW_BUCKET_COUNT
      ensures nKey.NewSlot(mapInfo[nId].addr, nUBucket) in S().vvNew && S().vvNew[nKey.NewSlot(mapInfo[nId].addr, nUBucket)] == nId
    {
      hide Loose, TableOf, Key.NewSlot, Key.Ranges, NotIn, Probed;
      var addr := mapInfo[nId].addr;
      var nRnd := GetRandInt(NEW_BUCKET_COUNT);
      nUBucket := -1;
      var n := 0;
      while n < NEW_BUCKET_COUNT && nUBucket == -1
        invariant 0 <= n <= NEW_BUCKET_COUNT && -1 <= nUBucket < NEW_BUCKET_COUNT
        invariant nUBucket != -1 ==> nKey.NewSlot(addr, nUBucket) in S().vvNew && S().vvNew[nKey.NewSlot(addr, nUBucket)] == nId
        invariant nUBucket == -1 ==> forall m | 0 <= m < n :: Probed(nKey, S().vvNew, addr, nId, nRnd, m)
      {
        var nB := (n + nRnd) % NEW_BUCKET_COUNT;
        SlotsInRange(nKey, S(), {}, 0, addr);
        SlotIs(nKey, addr, nB);
        var nBpos := nKey.position(addr, true, nB);
        assert S().vvNew[(nB, nBpos)] == vvNew[nB, nBpos];
        if vvNew[nB, nBpos] == nId {
          nUBucket := nB;
        } else {
          ProbedNow(nKey, S().vvNew, addr, nId, nRnd, n);
        }
        n := n + 1;
      }
      if nUBucket == -1 {
        // Unreachable: the entry has a reference.
        SearchedAll(nKey, S(), addr, nId, nRnd);
        assert false;
      }
    }

    /** A peer that answered is moved to the tried table, if it is known under the same port. */
    method Good(addr: Service, nTime: int)
      requires Valid() && nTime > 0
      modifies this`mapInfo, this`mapAddr, this`vRandom, this`nNew, this`nTried, vvNew, vvTried
      ensures Valid()
      ensures var known := addr.ip in old(mapAddr) && old(mapInfo)[old(mapAddr)[addr.ip]].addr == addr;
              if !known then S() == old(S())
              else var nId := old(mapAddr)[addr.ip];
                   && nId in mapInfo && mapInfo[nId].fInTried && mapInfo[nId].addr == addr
                   && mapInfo[nId].nLastSuccess == mapInfo[nId].nLastTry == nTime && mapInfo[nId].nAttempts == 0
                   && (old(mapInfo)[nId].fInTried ==> mapInfo == old(mapInfo)[nId := mapInfo[nId]] && S() == old(S()).(mapInfo := mapInfo))
                   && (!old(mapInfo)[nId].fInTried ==>
                         TriedEffect(nKey, old(S()).(mapInfo := old(mapInfo)[nId := Answered(old(mapInfo)[nId], nTime)]), S(), nId))
    {
      hide Loose, TableOf, Key.NewSlot, Key.TriedSlot, Key.Ranges, Survive, Evicted, TriedEffect;
      KnownIds(nKey, S(), addr.ip);
      var found := Find(addr.ip);
      if found.None? {
        return;
      }
      var nId := found.value;
      var info := mapInfo[nId];
      if info.addr != addr {
        return;
      }
      TimesAt(nKey, S(), nId);
      ghost var s := S();
      TouchOk(nKey, s, {}, 0, nId, Answered(info, nTime));
      mapInfo := mapInfo[nId := info.(nLastSuccess := nTime, nLastTry := nTime, nAttempts := 0)];
      assert S() == s.(mapInfo := s.mapInfo[nId := Answered(info, nTime)]);
      if info.fInTried {
        return;
      }
      var nUBucket := FindBucket(nId);
      if nUBucket == -1 {
        return;
      }
      ghost var s1 := S();
      MakeTried(nId);
      TriedEffectEntry(nKey, s1, S(), nId);
    }

    /** A new entry, in no table yet. */
    method CreateEntry(addr: Address, source: nat, ghost floating: set<int>, ghost uncounted: int) returns (nId: int)
      requires Shaped() && Loose(nKey, S(), floating, uncounted) && addr.service.ip !in mapAddr
      modifies this`nIdCount, this`mapInfo, this`mapAddr, this`vRandom
      ensures nId !in old(mapInfo) && nId in mapInfo && Survive(old(mapInfo), mapInfo, -1)
      ensures mapInfo.Keys == old(mapInfo).Keys + {nId} && mapInfo[nId] == NewInfo(addr, source).(nRandomPos := mapInfo[nId].nRandomPos)
      ensures Loose(nKey, S(), floating + {nId}, uncounted + 1)
    {
      hide Loose, TableOf;
      ghost var s := S();
      CreateOk(nKey, s, floating, uncounted, NewInfo(addr, source));
      nId := nIdCount;
      nIdCount := nIdCount + 1;
      mapInfo := mapInfo[nId := NewInfo(addr, source)];
      mapAddr := mapAddr[addr.service.ip := nId];
      mapInfo := mapInfo[nId := mapInfo[nId].(nRandomPos := |vRandom|)];
      vRandom := vRandom + [nId];
      assert S() == Create(s, NewInfo(addr, source));
    }

    /** Note what an address message says about a known entry. */
    method Refresh(nId: int, addr: Address, nTimePenalty: int, nNow: int)
      requires Valid() && nId in mapInfo
      modifies this`mapInfo
      ensures Valid()
      ensures mapInfo == old(mapInfo)[nId := Refreshed(old(mapInfo)[nId], addr, nTimePenalty, nNow)]
    {
      hide Loose, TableOf, Refreshed;
      ghost var s := S();
      TimesAt(nKey, s, nId);
      RefreshedFields(mapInfo[nId], addr, nTimePenalty, nNow);
      TouchOk(nKey, s, {}, 0, nId, Refreshed(mapInfo[nId], addr, nTimePenalty, nNow));
      var fCurrentlyOnline := nNow - addr.nTime < 24 * 60 * 60;
      var nUpdateInterval := if fCurrentlyOnline then 60 * 60 else 24 * 60 * 60;
      if addr.nTime != 0 && (mapInfo[nId].nTime == 0 || mapInfo[nId].nTime < addr.nTime - nUpdateInterval - nTimePenalty) {
        mapInfo := mapInfo[nId := mapInfo[nId].(nTime := Max(0, addr.nTime - nTimePenalty))];
      }
      mapInfo := mapInfo[nId := mapInfo[nId].(nServices := mapInfo[nId].nServices + addr.nServices)];
      RefreshedIs(s.mapInfo[nId], mapInfo[nId], addr, nTimePenalty, nNow, nUpdateInterval);
      assert S() == s.(mapInfo := s.mapInfo[nId := Refreshed(s.mapInfo[nId], addr, nTimePenalty, nNow)]);
    }

    /** Is there reason to give a known entry another reference? Each one it has halves the chance. */
    method WantsMore(nId: int, addr: Address) returns (more: bool)
      requires Valid() && nId in mapInfo
      ensures more ==> !mapInfo[nId].fInTried && 1 <= mapInfo[nId].nRefCount < NEW_BUCKETS_PER_ADDRESS
      ensures more ==> addr.nTime != 0 && (mapInfo[nId].nTime == 0 || addr.nTime > mapInfo[nId].nTime)
    {
      hide Loose, TableOf;
      if addr.nTime == 0 || (mapInfo[nId].nTime != 0 && addr.nTime <= mapInfo[nId].nTime) {
        return false;
      }
      if mapInfo[nId].fInTried {
        return false;
      }
      RefCountBounds(nKey, S(), {}, 0, nId);
      if mapInfo[nId].nRefCount == NEW_BUCKETS_PER_ADDRESS {
        return false;
      }
      var nFactor := 1;
      for n := 0 to mapInfo[nId].nRefCount
        invariant nFactor >= 1
      {
        nFactor := nFactor * 2;
      }
      if nFactor > 1 {
        var r := GetRandInt(nFactor);
        if r != 0 {
          return false;
        }
      }
      return true;
    }

    /** Give an entry the slot its source leads to, unless a better entry holds that slot. */
    method Seat(nId: int, source: nat, nNow: int, ghost isNew: bool)
      requires Shaped() && Loose(nKey, S(), if isNew then {nId} else {}, 0)
      requires nId in mapInfo && !mapInfo[nId].fInTried && mapInfo[nId].nRefCount < NEW_BUCKETS_PER_ADDRESS
      requires mapInfo[nId].nRefCount == 0 <==> isNew
      modifies this`mapInfo, this`mapAddr, this`vRandom, this`nNew, vvNew
      ensures Valid()
      ensures Seated(nKey, old(S()), S(), nId, source, nNow)
    {
      hide Loose, TableOf, Key.NewSlot, Key.TriedSlot, Key.Ranges;
      ghost var s, floating := S(), if isNew then {nId} else {};
      var info := mapInfo[nId];
      SlotsInRange(nKey, s, floating, 0, info.addr);
      RefCountBounds(nKey, s, floating, 0, nId);
      var ub := nKey.newBucket(info.addr, source);
      var up := nKey.position(info.addr, true, ub);
      SlotIs(nKey, info.addr, ub);
      OccupantRefs(nKey, s, floating, 0, (ub, up));
      assert s.vvNew[(ub, up)] == vvNew[ub, up];
      if vvNew[ub, up] != nId {
        var fInsert := vvNew[ub, up] == -1;
        if !fInsert {
          var infoExisting := mapInfo[vvNew[ub, up]];
          if IsTerrible(infoExisting, nNow) || (infoExisting.nRefCount > 1 && mapInfo[nId].nRefCount == 0) {
            fInsert := true;
          }
        }
        if fInsert {
          ClearNew(ub, up, floating, 0);
          assert S().vvNew[(ub, up)] == vvNew[ub, up];
          Put(ub, up, nId, floating, 0);
          assert floating - {nId} == {};
        } else {
          if mapInfo[nId].nRefCount == 0 {
            DeleteEntry(nId, floating, 0);
            assert floating - {nId} == {};
            LosesSlot(nKey, s, S(), nId, source, nNow);
          } else {
            assert floating == {};
            StaysOut(nKey, s, nId, source, nNow);
          }
        }
      }
    }

    /** A new entry that counts as new, with its time set back. */
    method CreateCounted(addr: Address, source: nat, nTimePenalty: int) returns (nId: int)
      requires Valid() && addr.service.ip !in mapAddr
      modifies this`nIdCount, this`mapInfo, this`mapAddr, this`vRandom, this`nNew
      ensures Loose(nKey, S(), {nId}, 0)
      ensures Added(old(S()), S(), nId, addr, source, nTimePenalty)
    {
      hide Loose, TableOf, Key.NewSlot, Key.TriedSlot, Key.Ranges, Added, Survive;
      ghost var s := S();
      nId := CreateEntry(addr, source, {}, 0);
      assert {} + {nId} == {nId};
      ghost var s1 := S();
      NoMinusOne(nKey, s1, {nId}, 1);
      TouchOk(nKey, s1, {nId}, 1, nId, mapInfo[nId].(nTime := Max(0, mapInfo[nId].nTime - nTimePenalty)));
      mapInfo := mapInfo[nId := mapInfo[nId].(nTime := Max(0, mapInfo[nId].nTime - nTimePenalty))];
      assert S() == s1.(mapInfo := mapInfo);
      Uncount(nKey, S(), {nId}, 1, -1);
      nNew := nNew + 1;
      AddedHolds(s, s1, S(), nId, addr, source, nTimePenalty);
    }

    /**
     Take an address into the new table. The result says that it was not known, even if it found no place and
     was dropped again.
     */
    method Add(addr: Address, fRoutable: bool, source: nat, nTimePenalty: int, nNow: int) returns (fNew: bool)
      requires Valid()
      modifies this
      modifies vvNew
      ensures Valid()
      ensures fNew <==> fRoutable && addr.service.ip !in old(mapAddr)
      ensures fNew ==> exists s1, nId :: Added(old(S()), s1, nId, addr, source, nTimePenalty) && Seated(nKey, s1, S(), nId, source, nNow)
      ensures !fRoutable ==> S() == old(S())
      ensures fRoutable && !fNew ==>
                var nId := old(mapAddr)[addr.service.ip];
                nId in old(mapInfo) &&
                var s1 := old(S()).(mapInfo := old(mapInfo)[nId := Refreshed(old(mapInfo)[nId], addr, nTimePenalty, nNow)]);
                S() == s1 || Seated(nKey, s1, S(), nId, source, nNow)
    {
      hide Loose, TableOf, Key.NewSlot, Key.TriedSlot, Key.Ranges, Survive, Seated, Refreshed, Added;
      ghost var s := S();
      if !fRoutable {
        return false;
      }
      KnownIds(nKey, s, addr.service.ip);
      var found := Find(addr.service.ip);
      match found
      case Some(nId) =>
        Refresh(nId, addr, nTimePenalty, nNow);
        var more := WantsMore(nId, addr);
        if !more {
          return false;
        }
        Seat(nId, source, nNow, false);
        fNew := false;
      case None =>
        var nId := CreateCounted(addr, source, nTimePenalty);
        ghost var s1 := S();
        AddedAt(s, s1, nId, addr, source, nTimePenalty);
        Seat(nId, source, nNow, true);
        fNew := true;
    }

    /** Note a connection attempt. A negative time is the one thing that Check_ objects to. */
    method Attempt(addr: Service, nTime: int)
      requires Valid()
      modifies this`mapInfo
      ensures Valid() <==> nTime >= 0 || KnownAs(old(mapInfo), mapAddr, addr) == None
      ensures mapInfo == match KnownAs(old(mapInfo), mapAddr, addr)
                         case None => old(mapInfo)
                         case Some(nId) => old(mapInfo)[nId := old(mapInfo)[nId].(nLastTry := nTime, nAttempts := old(mapInfo)[nId].nAttempts + 1)]
    {
      hide Loose, TableOf;
      ghost var s := S();
      KnownIds(nKey, s, addr.ip);
      var found := Find(addr.ip);
      if found.None? {
        return;
      }
      var nId := found.value;
      if mapInfo[nId].addr != addr {
        return;
      }
      TimesAt(nKey, s, nId);
      if nTime >= 0 {
        TouchOk(nKey, s, {}, 0, nId, mapInfo[nId].(nLastTry := nTime, nAttempts := mapInfo[nId].nAttempts + 1));
      }
      mapInfo := mapInfo[nId := mapInfo[nId].(nLastTry := nTime, nAttempts := mapInfo[nId].nAttempts + 1)];
      assert S() == s.(mapInfo := mapInfo);
      if nTime < 0 && Inv(nKey, S()) {
        TimesAt(nKey, S(), nId);
      }
    }

    /** Note that a peer is connected; its time is moved at most every twenty minutes. */
    method Connected(addr: Service, nTime: int)
      requires Valid()
      modifies this`mapInfo
      ensures Valid()
      ensures mapInfo == match KnownAs(old(mapInfo), mapAddr, addr)
                         case None => old(mapInfo)
                         case Some(nId) => if nTime - old(mapInfo)[nId].nTime > 20 * 60 then old(mapInfo)[nId := old(mapInfo)[nId].(nTime := nTime)] else old(mapInfo)
    {
      hide Loose, TableOf;
      ghost var s := S();
      KnownIds(nKey, s, addr.ip);
      var found := Find(addr.ip);
      if found.None? {
        return;
      }
      var nId := found.value;
      if mapInfo[nId].addr != addr {
        return;
      }
      var nUpdateInterval := 20 * 60;
      if nTime - mapInfo[nId].nTime > nUpdateInterval {
        TimesAt(nKey, s, nId);
        TouchOk(nKey, s, {}, 0, nId, mapInfo[nId].(nTime := nTime));
        mapInfo := mapInfo[nId := mapInfo[nId].(nTime := nTime)];
        assert S() == s.(mapInfo := mapInfo);
      }
    }

    /** Swap a random entry of those from position n on to position n. */
    method Draw(n: int)
      requires Valid() && RandomOk(mapInfo, vRandom) && 0 <= n < |vRandom|
      modifies this`mapInfo, this`vRandom
      ensures Valid() && RandomOk(mapInfo, vRandom) && SameButPos(old(mapInfo), mapInfo)
      ensures |vRandom| == old(|vRandom|) && vRandom[..n] == old(vRandom[..n])
    {
      hide Loose, TableOf, SameButPos, SwapRandom, RandomOk;
      var r := GetRandInt(|vRandom| - n);
      var nRndPos := r + n;
      ghost var s := S();
      SwapRandomOk(s, n, nRndPos);
      SwapRandomPos(n, nRndPos);
      SameButPosLoose(nKey, s, S(), {}, 0);
    }

    /** A random choice of distinct entries that are not terrible, at most 23 in a hundred and at most 2500. */
    method GetAddr(nNow: int) returns (vAddr: seq<Address>, ghost ids: seq<int>)
      requires Valid()
      modifies this`mapInfo, this`vRandom
      ensures Valid() && SameButPos(old(mapInfo), mapInfo)
      ensures |vAddr| == |ids| && |vAddr| <= Min(23 * |old(mapInfo)| / 100, 2500)
      ensures forall i, j | 0 <= i < j < |ids| :: ids[i] != ids[j]
      ensures forall i | 0 <= i < |ids| :: Shares(old(mapInfo), ids[i], vAddr[i], nNow)
      ensures |vAddr| < Min(23 * |old(mapInfo)| / 100, 2500) ==>
                forall n | n in old(mapInfo) && !IsTerrible(old(mapInfo)[n], nNow) :: n in ids
    {
      hide Loose, TableOf, SameButPos, SwapRandom, IsTerrible, RandomOk, Shares;
      ghost var s := S();
      RandomIs(nKey, s);
      SamePosRefl(s.mapInfo);
      var nNodes := ADDRMAN_GETADDR_MAX_PCT * |vRandom| / 100;
      if nNodes > ADDRMAN_GETADDR_MAX {
        nNodes := ADDRMAN_GETADDR_MAX;
      }
      vAddr, ids := [], [];
      var n := 0;
      while n < |vRandom| && |vAddr| < nNodes
        invariant 0 <= n <= |vRandom| == |s.vRandom| && Valid() && RandomOk(mapInfo, vRandom)
        invariant SameButPos(s.mapInfo, mapInfo) && |vAddr| == |ids| && |vAddr| <= nNodes
        invariant Chosen(s.mapInfo, vRandom[..n], ids, vAddr, nNow)
      {
        ghost var m1 := mapInfo;
        Draw(n);
        SamePosTrans(s.mapInfo, m1, mapInfo);
        RandomIds(mapInfo, vRandom);
        SamePosAt(s.mapInfo, mapInfo, vRandom[n]);
        var ai := mapInfo[vRandom[n]];
        SameTerrible(s.mapInfo[vRandom[n]], ai, nNow);
        RandomDistinct(mapInfo, vRandom, n);
        ChosenMore(s.mapInfo, vRandom[..n], ids, vAddr, nNow, vRandom[n]);
        assert vRandom[..n + 1] == vRandom[..n] + [vRandom[n]];
        if !IsTerrible(ai, nNow) {
          vAddr := vAddr + [Address(ai.addr, ai.nServices, ai.nTime)];
          ids := ids + [vRandom[n]];
        }
        n := n + 1;
      }
      if n == |vRandom| {
        assert vRandom[..n] == vRandom;
        SeenAll(s.mapInfo, mapInfo, vRandom);
      }
    }
  }

  lemma LosesSlot(key: Key, s: State, s': State, nId: int, source: nat, nNow: int)
    requires nId in s.mapInfo && s.mapInfo[nId].nRefCount == 0 && s'.vvNew == s.vvNew
    requires var slot := key.NewSlot(s.mapInfo[nId].addr, key.newBucket(s.mapInfo[nId].addr, source));
             && slot in s.vvNew && s.vvNew[slot] != nId && s.vvNew[slot] != -1 && s.vvNew[slot] in s.mapInfo
             && !GivesWay(s.mapInfo[s.vvNew[slot]], 0, nNow)
    requires SameButPos(s.mapInfo - {nId}, s'.mapInfo)
    ensures Seated(key, s, s', nId, source, nNow)
  {
    hide Key.NewSlot, GivesWay;
    assert nId !in s'.mapInfo;
    assert forall n | n in s.mapInfo && n != nId :: n in s.mapInfo - {nId};
  }

  lemma StaysOut(key: Key, s: State, nId: int, source: nat, nNow: int)
    requires nId in s.mapInfo && s.mapInfo[nId].nRefCount > 0
    requires var slot := key.NewSlot(s.mapInfo[nId].addr, key.newBucket(s.mapInfo[nId].addr, source));
             && slot in s.vvNew && s.vvNew[slot] != nId && s.vvNew[slot] != -1 && s.vvNew[slot] in s.mapInfo
             && !GivesWay(s.mapInfo[s.vvNew[slot]], s.mapInfo[nId].nRefCount, nNow)
    ensures Seated(key, s, s, nId, source, nNow)
  {
    hide Key.NewSlot, GivesWay;
  }

  lemma IdNotNegative(key: Key, s: State, floating: set<int>, uncounted: int, id: int)
    requires Loose(key, s, floating, uncounted) && id in s.mapInfo
    ensures id >= 0
  {
  }

  lemma TriedSlotIs(key: Key, a: Service)
    ensures key.TriedSlot(a) == (key.triedBucket(a), key.position(a, false, key.triedBucket(a)))
  {
  }

  lemma TryIs(key: Key, s: State, s': State, id: int)
    requires id in s.mapInfo
    requires s' == s.(mapInfo := s.mapInfo[id := s.mapInfo[id].(fInTried := true)],
                      vvTried := s.vvTried[key.TriedSlot(s.mapInfo[id].addr) := id], nTried := s.nTried + 1)
    ensures s' == AddrTables.Try(key, s, id)
  {
  }

  /** The entry is tried now, a previous holder of its slot is not, and no other entry is lost but the one whose place that holder takes. */
  ghost predicate TriedEffect(key: Key, s: State, s': State, nId: int)
    requires nId in s.mapInfo
  {
    var slot := key.TriedSlot(s.mapInfo[nId].addr);
    && slot in s.vvTried && s'.vvTried == s.vvTried[slot := nId]
    && nId in s'.mapInfo && s'.mapInfo[nId] == s.mapInfo[nId].(fInTried := true, nRefCount := 0, nRandomPos := s'.mapInfo[nId].nRandomPos)
    && (s.vvTried[slot] == -1 ==> s'.mapInfo.Keys == s.mapInfo.Keys && Survive(s.mapInfo, s'.mapInfo, nId))
    && (s.vvTried[slot] != -1 ==> Evicted(key, s, s', {nId}, s.vvTried[slot]))
  }

  /** A tried entry is new again, in place of the entry there; entries that are neither that one nor in `others` stay. */
  ghost predicate Evicted(key: Key, s: State, s': State, others: set<int>, nIdEvict: int) {
    && nIdEvict in s.mapInfo && nIdEvict in s'.mapInfo
    && s'.mapInfo[nIdEvict] == s.mapInfo[nIdEvict].(fInTried := false, nRefCount := 1, nRandomPos := s'.mapInfo[nIdEvict].nRandomPos)
    && var slot := key.NewSlot(s.mapInfo[nIdEvict].addr, key.newBucket(s.mapInfo[nIdEvict].addr, s.mapInfo[nIdEvict].source));
    && slot in s.vvNew && slot in s'.vvNew && s'.vvNew[slot] == nIdEvict
    && StayBut(s.mapInfo, s'.mapInfo, others + {nIdEvict, s.vvNew[slot]})
  }

  ghost predicate StayBut(m: map<int, AddrInfo>, m': map<int, AddrInfo>, others: set<int>) {
    forall n | n in m && n !in others :: n in m' && m'[n] == m[n].(nRandomPos := m'[n].nRandomPos)
  }

  lemma SurviveAt(m: map<int, AddrInfo>, m': map<int, AddrInfo>, id: int, n: int)
    requires Survive(m, m', id) && n in m && n != id
    ensures n in m' && m'[n] == m[n].(nRandomPos := m'[n].nRandomPos)
  {
  }

  /** Entries when one is placed: before, after its slot was freed, after it was put there. */
  lemma SettleMaps(m: map<int, AddrInfo>, m1: map<int, AddrInfo>, m2: map<int, AddrInfo>, id: int, occupant: int)
    requires id in m && m[id].nRefCount == 0 && Survive(m, m1, occupant) && occupant != id
    requires id in m1 && m2 == m1[id := m1[id].(nRefCount := m1[id].nRefCount + 1)]
    ensures m2[id] == m[id].(nRefCount := 1, nRandomPos := m2[id].nRandomPos)
    ensures StayBut(m, m2, {id, occupant})
  {
    SurviveAt(m, m1, occupant, id);
  }

  /** Entries when one is evicted: before, after it left the tried table, after it was placed in the new one. */
  lemma EvictMaps(m: map<int, AddrInfo>, m1: map<int, AddrInfo>, m2: map<int, AddrInfo>, id: int, occupant: int, floating: set<int>)
    requires id in m && m1 == m[id := m[id].(fInTried := false)] && StayBut(m1, m2, {id, occupant})
    requires occupant !in floating && id !in floating && forall n | n in floating :: n in m
    ensures StayBut(m, m2, {id, occupant})
    ensures forall n | n in floating :: n in m2 && m2[n] == m[n].(nRandomPos := m2[n].nRandomPos)
  {
  }

  lemma EvictedHolds(key: Key, s: State, s': State, nIdEvict: int, slot: Slot)
    requires nIdEvict in s.mapInfo && nIdEvict in s'.mapInfo
    requires s'.mapInfo[nIdEvict] == s.mapInfo[nIdEvict].(fInTried := false, nRefCount := 1, nRandomPos := s'.mapInfo[nIdEvict].nRandomPos)
    requires slot == key.NewSlot(s.mapInfo[nIdEvict].addr, key.newBucket(s.mapInfo[nIdEvict].addr, s.mapInfo[nIdEvict].source))
    requires slot in s.vvNew && s'.vvNew == s.vvNew[slot := nIdEvict]
    requires StayBut(s.mapInfo, s'.mapInfo, {nIdEvict, s.vvNew[slot]})
    ensures Evicted(key, s, s', {}, nIdEvict)
  {
    assert {} + {nIdEvict, s.vvNew[slot]} == {nIdEvict, s.vvNew[slot]};
  }

  lemma TriedEffectHolds(key: Key, s: State, s1: State, s2: State, s3: State, nId: int, nIdEvict: int)
    requires nId in s.mapInfo && nId in s1.mapInfo && nId in s2.mapInfo && -1 !in s.mapInfo
    requires s1.mapInfo.Keys == s.mapInfo.Keys && Survive(s.mapInfo, s1.mapInfo, nId) && s1.mapInfo[nId] == s.mapInfo[nId].(nRefCount := 0)
    requires s1.vvTried == s.vvTried && Cleared(s.vvNew, s1.vvNew, nId)
    requires var slot := key.TriedSlot(s.mapInfo[nId].addr);
             slot in s.vvTried && s2.vvTried == s.vvTried[slot := -1] && nIdEvict == s.vvTried[slot]
    requires if nIdEvict == -1 then s2 == s1
             else Evicted(key, s1, s2, {}, nIdEvict) && nId != nIdEvict && s2.mapInfo[nId] == s1.mapInfo[nId].(nRandomPos := s2.mapInfo[nId].nRandomPos)
    requires s3 == AddrTables.Try(key, s2, nId)
    ensures TriedEffect(key, s, s3, nId)
  {
    if nIdEvict != -1 {
      var info := s.mapInfo[nIdEvict];
      var slot := key.NewSlot(info.addr, key.newBucket(info.addr, info.source));
      assert s1.mapInfo[nIdEvict] == info.(nRandomPos := s1.mapInfo[nIdEvict].nRandomPos);
      assert s3.mapInfo[nIdEvict] == s2.mapInfo[nIdEvict];
      hide Key.NewSlot, Key.TriedSlot;
      forall n | n in s.mapInfo && n !in {nId} + {nIdEvict, s.vvNew[slot]}
        ensures n in s3.mapInfo && s3.mapInfo[n] == s.mapInfo[n].(nRandomPos := s3.mapInfo[n].nRandomPos)
      {
        assert n !in {} + {nIdEvict, s1.vvNew[slot]} || n == -1;
      }
    }
  }

  lemma ProbedNow(key: Key, t: Table, addr: Service, id: int, nRnd: int, m: int)
    requires key.NewSlot(addr, (m + nRnd) % NEW_BUCKET_COUNT) in t && t[key.NewSlot(addr, (m + nRnd) % NEW_BUCKET_COUNT)] != id
    ensures Probed(key, t, addr, id, nRnd, m)
  {
  }

  lemma TriedEffectEntry(key: Key, s: State, s': State, nId: int)
    requires nId in s.mapInfo && TriedEffect(key, s, s', nId)
    ensures nId in s'.mapInfo && s'.mapInfo[nId] == s.mapInfo[nId].(fInTried := true, nRefCount := 0, nRandomPos := s'.mapInfo[nId].nRandomPos)
  {
  }

  function Answered(info: AddrInfo, nTime: int): AddrInfo {
    info.(nLastSuccess := nTime, nLastTry := nTime, nAttempts := 0)
  }

  lemma KnownIds(key: Key, s: State, ip: nat)
    requires Inv(key, s)
    ensures ip in s.mapAddr ==> s.mapAddr[ip] in s.mapInfo && s.mapInfo[s.mapAddr[ip]].addr.ip == ip
  {
  }

  lemma TimesAt(key: Key, s: State, id: int)
    requires Inv(key, s) && id in s.mapInfo
    ensures s.mapInfo[id].nLastTry >= 0 && s.mapInfo[id].nLastSuccess >= 0 && (s.mapInfo[id].fInTried ==> s.mapInfo[id].nLastSuccess != 0)
  {
  }

  ghost predicate Probed(key: Key, t: Table, addr: Service, id: int, nRnd: int, m: int) {
    NotIn(key, t, addr, id, (m + nRnd) % NEW_BUCKET_COUNT)
  }

  /** A search that starts anywhere and wraps around sees every bucket, so it finds an entry of the new table. */
  lemma SearchedAll(key: Key, s: State, addr: Service, nId: int, nRnd: int)
    requires Inv(key, s) && nId in s.mapInfo && !s.mapInfo[nId].fInTried && s.mapInfo[nId].addr == addr
    requires 0 <= nRnd < NEW_BUCKET_COUNT
    ensures exists m | 0 <= m < NEW_BUCKET_COUNT :: !Probed(key, s.vvNew, addr, nId, nRnd, m)
  {
    hide Loose, NotIn;
    if forall m | 0 <= m < NEW_BUCKET_COUNT :: Probed(key, s.vvNew, addr, nId, nRnd, m) {
      forall b | 0 <= b < NEW_BUCKET_COUNT ensures NotIn(key, s.vvNew, addr, nId, b) {
        var m := if b >= nRnd then b - nRnd else b - nRnd + NEW_BUCKET_COUNT;
        assert (m + nRnd) % NEW_BUCKET_COUNT == b && Probed(key, s.vvNew, addr, nId, nRnd, m);
      }
      NoSlotLeft(key, s, {}, 0, nId);
      RefCountBounds(key, s, {}, 0, nId);
      assert false;
    }
  }

  lemma NotInNow(key: Key, t: Table, addr: Service, id: int, bucket: int)
    requires key.NewSlot(addr, bucket) in t && t[key.NewSlot(addr, bucket)] != id
    ensures NotIn(key, t, addr, id, bucket)
  {
  }

  lemma PlaceIs(s: State, s': State, slot: Slot, id: int)
    requires id in s.mapInfo && s' == s.(mapInfo := s.mapInfo[id := s.mapInfo[id].(nRefCount := s.mapInfo[id].nRefCount + 1)], vvNew := s.vvNew[slot := id])
    ensures s' == Place(s, slot, id)
  {
  }

  lemma SlotIs(key: Key, a: Service, bucket: int)
    ensures key.NewSlot(a, bucket) == (bucket, key.position(a, true, bucket))
  {
  }

  lemma NoMinusOne(key: Key, s: State, floating: set<int>, uncounted: int)
    requires Loose(key, s, floating, uncounted)
    ensures -1 !in s.mapInfo
  {
  }

  lemma OccupantRefs(key: Key, s: State, floating: set<int>, uncounted: int, slot: Slot)
    requires Loose(key, s, floating, uncounted) && slot in s.vvNew
    ensures s.vvNew[slot] != -1 ==> s.vvNew[slot] in s.mapInfo && s.mapInfo[s.vvNew[slot]].nRefCount >= 1
    ensures -1 !in s.mapInfo
  {
    NoMinusOne(key, s, floating, uncounted);
    hide Loose;
    if s.vvNew[slot] != -1 {
      NewSlotEntry(key, s, floating, uncounted, slot);
    }
  }

  /** Slots of an id may have been emptied. */
  ghost predicate Cleared(t: Table, t': Table, id: int) {
    t'.Keys == t.Keys && forall x | x in t :: (t'[x] == t[x] || (t[x] == id && t'[x] == -1))
  }

  lemma ReleaseIs(s: State, s': State, slot: Slot)
    requires slot in s.vvNew && s.vvNew[slot] in s.mapInfo
    requires var id := s.vvNew[slot];
             s' == s.(mapInfo := s.mapInfo[id := s.mapInfo[id].(nRefCount := s.mapInfo[id].nRefCount - 1)], vvNew := s.vvNew[slot := -1])
    ensures s' == Release(s, slot)
  {
  }

  /** An entry with a reference need not float. */
  lemma Refloat(key: Key, s: State, floating: set<int>, uncounted: int, id: int)
    requires Loose(key, s, floating + {id}, uncounted) && id in s.mapInfo && s.mapInfo[id].nRefCount != 0
    ensures Loose(key, s, floating, uncounted)
  {
    assert forall n | n in s.mapInfo :: RefOk(s.mapInfo[n], n, s.vvNew, n in floating + {id});
    assert |Slots(s.vvNew, id)| >= 0;
  }

  lemma SurviveAfter(m: map<int, AddrInfo>, m1: map<int, AddrInfo>, m2: map<int, AddrInfo>, id: int)
    requires Survive(m, m1, id) && Survive(m1, m2, id)
    ensures Survive(m, m2, id)
  {
  }

  lemma SurviveOne(m: map<int, AddrInfo>, m1: map<int, AddrInfo>, id: int)
    requires m1.Keys == m.Keys && (forall n | n in m && n != id :: m1[n] == m[n])
    ensures Survive(m, m1, id)
  {
  }
}
