/** The monitor with its two maps, shown to keep them in agreement and to do what ExclusiveSpec says. */
module ExclusiveMonitor {
  import opened Basics
  import opened Ordered
  import S = ExclusiveSpec

  datatype Region = Region(start: int, end: int, id: S.Id)

  /** A transaction; len >= 1 and no wrap-around, as the bus guarantees. */
  datatype Txn = Txn(write: bool, exclusive: bool, id: S.Id, addr: nat, len: nat) {
    ghost predicate Ok() { len >= 1 && addr + len <= TWO64 }
    ghost function Bytes(): S.Range
      requires Ok()
    {
      S.Range(addr, addr + len - 1)
    }
  }

  /** A direct-memory grant: addresses start..end are host bytes ptr, ptr + 1, ... */
  datatype Dmi = Dmi(start: nat, end: nat, ptr: int)

  /** What each initiator has locked. */
  ghost function LocksOf(byId: map<S.Id, Region>): S.Locks
    requires forall i :: i in byId ==> 0 <= byId[i].start <= byId[i].end
  {
    map i | i in byId :: S.Range(byId[i].start, byId[i].end)
  }

  ghost predicate MapsAgree(regions: map<int, Region>, byId: map<S.Id, Region>) {
    && (forall k :: k in regions ==>
          regions[k].start == k && regions[k].id in byId && byId[regions[k].id] == regions[k])
    && (forall i :: i in byId ==> byId[i].id == i && byId[i].start in regions && regions[byId[i].start] == byId[i])
  }

  ghost predicate RegionsDisjoint(regions: map<int, Region>) {
    && (forall k :: k in regions ==> 0 <= k <= regions[k].end)
    && (forall k, l :: k in regions && l in regions && k < l ==> regions[k].end < l)
  }

  predicate Meets(r: Region, start: int, end: int) { r.start <= end && start <= r.end }

  class Monitor {
    var regions: map<int, Region>
    var byId: map<S.Id, Region>
    var invalidated: seq<(int, int)>    // invalidations sent to the initiators, oldest first

    ghost predicate Valid()
      reads this
    {
      MapsAgree(regions, byId) && RegionsDisjoint(regions)
    }

    ghost function Locks(): S.Locks
      requires Valid()
      reads this
    {
      LocksOf(byId)
    }

    constructor ()
      ensures Valid() && Locks() == map[] && invalidated == []
    {
      regions, byId, invalidated := map[], map[], [];
    }

    lemma LocksAreOk()
      requires Valid()
      ensures S.LocksOk(Locks())
    {
      var locks := Locks();
      forall i, j | i in locks && j in locks && i != j ensures !locks[i].Overlaps(locks[j]) {
        assert byId[i].start in regions && byId[j].start in regions;
      }
    }

    /** Each initiator's lock is one of the regions, and each region is its initiator's lock. */
    lemma LocksAreRegions()
      requires Valid()
      ensures forall i :: i in byId <==> i in Locks()
      ensures forall k :: k in regions ==>
        regions[k].id in Locks() && Locks()[regions[k].id] == S.Range(k, regions[k].end)
      ensures forall i :: i in byId ==>
        byId[i].start in regions && Locks()[i] == S.Range(byId[i].start, regions[byId[i].start].end)
    {
    }

    lemma FreeIff(start: nat, end: nat)
      requires Valid()
      ensures S.Free(Locks(), S.Range(start, end)) <==> forall k :: k in regions ==> !Meets(regions[k], start, end)
    {
      LocksAreRegions();
      var locks, r := Locks(), S.Range(start, end);
      if S.Free(locks, r) {
        forall k | k in regions ensures !Meets(regions[k], start, end) {
          assert !locks[regions[k].id].Overlaps(r);
        }
      }
      if forall k :: k in regions ==> !Meets(regions[k], start, end) {
        forall i | i in locks ensures !locks[i].Overlaps(r) {
          assert !Meets(regions[byId[i].start], start, end);
        }
      }
    }

    /** Some region meeting the range, or None when the whole range is free. */
    method FindRegion(start: nat, end: nat) returns (r: Option<Region>)
      requires Valid() && start <= end
      ensures r.None? <==> S.Free(Locks(), S.Range(start, end))
      ensures r.Some? ==> r.value.id in byId && byId[r.value.id] == r.value && Meets(r.value, start, end)
    {
      var it := LowerBound(regions.Keys, start);
      it := StepBack(regions.Keys, it);
      while it.Some?
        invariant it.Some? ==> it.value in regions
        invariant AllLeft(regions, it, start)
        decreases From(regions.Keys, it)
      {
        var region := regions[it.value];
        if region.end < start {
          ghost var at := it.value;
          it := LowerBound(regions.Keys, it.value + 1);
          MovedPast(regions, at, it, start);
          continue;
        }
        if region.start > end { break; }
        FreeIff(start, end);
        return Some(region);
      }
      FreeIff(start, end);
      r := None;
    }

    method LockRegion(start: nat, end: nat, id: S.Id)
      requires Valid() && start <= end && S.Free(Locks(), S.Range(start, end)) && id !in byId
      modifies this
      ensures Valid() && Locks() == old(Locks())[id := S.Range(start, end)]
      ensures invalidated == old(invalidated) + [(start, end)]
    {
      FreeIff(start, end);
      var region := Region(start, end, id);
      AddRegion(regions, byId, region);
      AddLock(byId, region);
      regions := regions[start := region];
      byId := byId[id := region];
      invalidated := invalidated + [(start, end)];
    }

    method UnlockRegion(r: Region)
      requires Valid() && r.id in byId && byId[r.id] == r
      modifies this`regions, this`byId
      ensures Valid() && Locks() == old(Locks()) - {r.id} && |byId| < |old(byId)|
    {
      RemoveRegion(regions, byId, r);
      RemoveLock(byId, r.id);
      regions := regions - {r.start};
      byId := byId - {r.id};
    }

    method UnlockRegionById(id: S.Id)
      requires Valid()
      modifies this`regions, this`byId
      ensures Valid() && Locks() == old(Locks()) - {id} && id !in byId
    {
      if id in byId {
        UnlockRegion(byId[id]);
      } else {
        assert Locks() == Locks() - {id};
      }
      LocksAreRegions();
    }

    method HandleExclusiveLoad(txn: Txn)
      requires Valid() && txn.Ok()
      modifies this
      ensures Valid() && Locks() == S.LoadLocked(old(Locks()), txn.id, txn.Bytes())
      ensures invalidated == old(invalidated) +
        (if S.Free(old(Locks()), txn.Bytes()) then [(txn.addr as int, txn.addr + txn.len - 1)] else [])
    {
      var region := FindRegion(txn.addr, txn.addr + txn.len - 1);
      if region.Some? { return; }
      Relock(txn);
    }

    method Relock(txn: Txn)
      requires Valid() && txn.Ok() && S.Free(Locks(), txn.Bytes())
      modifies this
      ensures Valid() && Locks() == old(Locks())[txn.id := txn.Bytes()]
      ensures invalidated == old(invalidated) + [(txn.addr, txn.addr + txn.len - 1)]
    {
      Replaced(Locks(), txn.id, txn.Bytes());
      UnlockRegionById(txn.id);
      LockRegion(txn.addr, txn.addr + txn.len - 1, txn.id);
    }

    method HandleExclusiveStore(txn: Txn) returns (ok: bool)
      requires Valid() && txn.Ok()
      modifies this`regions, this`byId
      ensures Valid()
      ensures ok <==> S.StoreSucceeds(old(Locks()), txn.id, txn.Bytes())
      ensures Locks() == if ok then old(Locks()) - {txn.id} else old(Locks())
    {
      LocksAreOk();
      LocksAreRegions();
      ghost var locks, bytes := Locks(), txn.Bytes();
      var region := FindRegion(txn.addr, txn.addr + txn.len - 1);
      if region.None? { return false; }
      assert locks[region.value.id].Overlaps(bytes);
      if region.value.id != txn.id { return false; }
      if region.value.start != txn.addr || region.value.end != txn.addr + txn.len - 1 { return false; }
      UnlockRegion(region.value);
      ok := true;
    }

    method HandleRegularStore(txn: Txn)
      requires Valid() && txn.Ok()
      modifies this`regions, this`byId
      ensures Valid() && Locks() == S.Unlocked(old(Locks()), txn.Bytes())
    {
      ghost var locks, bytes := Locks(), txn.Bytes();
      var region := FindRegion(txn.addr, txn.addr + txn.len - 1);
      while region.Some?
        invariant Valid()
        invariant S.Unlocked(Locks(), bytes) == S.Unlocked(locks, bytes)
        invariant region.None? ==> S.Free(Locks(), bytes)
        invariant region.Some? ==>
          && region.value.id in byId && byId[region.value.id] == region.value
          && Meets(region.value, bytes.start, bytes.end)
        decreases |byId|
      {
        LocksAreRegions();
        UnlockOne(Locks(), region.value.id, bytes);
        UnlockRegion(region.value);
        region := FindRegion(txn.addr, txn.addr + txn.len - 1);
      }
      UnlockNone(Locks(), bytes);
    }

    /**
     * One transaction. It is withheld from the target only when it is an
     * exclusive store that fails; otherwise the target answers `targetOk`.
     */
    method BTransport(txn: Txn, targetOk: bool) returns (forwarded: bool, clearDmiHint: bool)
      requires Valid() && txn.Ok()
      modifies this
      ensures Valid()
      ensures forwarded <==> !(txn.write && txn.exclusive) || S.StoreSucceeds(old(Locks()), txn.id, txn.Bytes())
      ensures Follows(old(Locks()), txn, targetOk, Locks(), invalidated != old(invalidated))
      ensures invalidated == old(invalidated) +
        (if !txn.write && txn.exclusive && targetOk && S.Free(old(Locks()), txn.Bytes())
         then [(txn.addr as int, txn.addr + txn.len - 1)] else [])
      ensures clearDmiHint <==> !txn.write && targetOk && (txn.exclusive || !S.Free(old(Locks()), txn.Bytes()))
    {
      forwarded, clearDmiHint := true, false;
      if txn.write {
        StoreFollows(Locks(), txn, targetOk);
        if txn.exclusive {
          forwarded := HandleExclusiveStore(txn);
        } else {
          HandleRegularStore(txn);
        }
        return;
      }
      if !txn.exclusive || !targetOk { NothingFollows(Locks(), txn, targetOk); }
      if !targetOk { return; }
      if txn.exclusive {
        LoadFollows(Locks(), txn);
        HandleExclusiveLoad(txn);
        clearDmiHint := true;
      } else {
        var region := FindRegion(txn.addr, txn.addr + txn.len - 1);
        clearDmiHint := region.Some?;
      }
    }

    /**
     * The target has offered `dmi`. What is handed on is the largest lock-free
     * part of it around the address, with every address at the same host byte;
     * it is refused exactly when the address itself is locked.
     */
    method GetDirectMemPtr(addr: nat, dmi: Dmi) returns (r: Option<Dmi>)
      requires Valid() && dmi.start <= addr <= dmi.end
      ensures r.None? <==> !S.Free(Locks(), S.Range(addr, addr))
      ensures r.Some? ==> S.IsGrant(Locks(), addr, S.Range(dmi.start, dmi.end), S.Range(r.value.start, r.value.end))
      ensures r.Some? ==> r.value.ptr - r.value.start == dmi.ptr - dmi.start
    {
      var start, end := dmi.start as int, dmi.end as int;
      var bound := LowerBound(regions.Keys, addr + 1);
      var it := StepBack(regions.Keys, bound);
      SearchStarts(regions, bound, it, start, addr);
      ghost var left := None;    // region that fixed the left side
      while it.Some?
        invariant it.Some? ==> it.value in regions
        invariant dmi.start <= start <= addr <= end == dmi.end
        invariant Searching(regions, it, start, addr)
        invariant left.None? ==> start == dmi.start
        invariant left.Some? ==> left.value in regions && regions[left.value].end + 1 == start
        decreases From(regions.Keys, it)
      {
        var region := regions[it.value];
        ghost var at := it.value;
        if region.end < start {
          it := LowerBound(regions.Keys, it.value + 1);
        } else if region.start > end {
          break;
        } else if region.start <= addr && region.end >= addr {
          FreeIff(addr, addr);
          return None;
        } else if region.end < addr {
          start, left := region.end + 1, Some(it.value);
          it := LowerBound(regions.Keys, it.value + 1);
        } else {
          end := region.start - 1;
          SearchDone(regions, it, start, end, addr);
          GrantIsLargest(addr, dmi, start, end, left, it);
          return Some(Dmi(start, end, dmi.ptr + (start - dmi.start)));
        }
        MovedPast(regions, at, it, start);
      }
      SearchDone(regions, it, start, end, addr);
      GrantIsLargest(addr, dmi, start, end, left, None);
      return Some(Dmi(start, end, dmi.ptr + (start - dmi.start)));
    }

    lemma GrantIsLargest(addr: nat, dmi: Dmi, start: nat, end: nat, left: Option<int>, right: Option<int>)
      requires Valid() && dmi.start <= start <= addr <= end <= dmi.end
      requires if left.Some? then left.value in regions && regions[left.value].end + 1 == start else start == dmi.start
      requires if right.Some? then right.value in regions && right.value - 1 == end else end == dmi.end
      requires forall k :: k in regions ==> regions[k].end < start || k > end
      ensures S.IsGrant(Locks(), addr, S.Range(dmi.start, dmi.end), S.Range(start, end))
      ensures S.Free(Locks(), S.Range(addr, addr))
    {
      FreeIff(start, end);
      FreeIff(addr, addr);
      forall v: S.Range | v.Has(addr) && v.Within(S.Range(dmi.start, dmi.end)) && S.Free(Locks(), v)
        ensures v.Within(S.Range(start, end))
      {
        assert v == S.Range(v.start, v.end);
        FreeIff(v.start, v.end);
        if left.Some? {
          var l := left.value;
          assert !Meets(regions[l], v.start, v.end);
        }
        if right.Some? {
          var r := right.value;
          assert !Meets(regions[r], v.start, v.end);
        }
      }
    }
  }

  lemma AddRegion(regions: map<int, Region>, byId: map<S.Id, Region>, r: Region)
    requires MapsAgree(regions, byId) && RegionsDisjoint(regions) && r.id !in byId && 0 <= r.start <= r.end
    requires forall k :: k in regions ==> !Meets(regions[k], r.start, r.end)
    ensures MapsAgree(regions[r.start := r], byId[r.id := r]) && RegionsDisjoint(regions[r.start := r])
  {
    assert r.start !in regions;
  }

  lemma AddLock(byId: map<S.Id, Region>, r: Region)
    requires (forall i :: i in byId ==> 0 <= byId[i].start <= byId[i].end) && 0 <= r.start <= r.end
    ensures LocksOf(byId[r.id := r]) == LocksOf(byId)[r.id := S.Range(r.start, r.end)]
  {
  }

  lemma RemoveRegion(regions: map<int, Region>, byId: map<S.Id, Region>, r: Region)
    requires MapsAgree(regions, byId) && RegionsDisjoint(regions) && r.id in byId && byId[r.id] == r
    ensures MapsAgree(regions - {r.start}, byId - {r.id}) && RegionsDisjoint(regions - {r.start})
  {
    var rs, ids := regions - {r.start}, byId - {r.id};
    forall i | i in ids ensures ids[i].id == i && ids[i].start in rs && rs[ids[i].start] == ids[i] {
      assert regions[byId[i].start].id == i;
    }
  }

  lemma RemoveLock(byId: map<S.Id, Region>, id: S.Id)
    requires (forall i :: i in byId ==> 0 <= byId[i].start <= byId[i].end) && id in byId
    ensures LocksOf(byId - {id}) == LocksOf(byId) - {id} && |byId - {id}| < |byId|
  {
    assert (byId - {id}).Keys == byId.Keys - {id};
    assert |(byId - {id}).Keys| == |byId.Keys| - 1;
  }

  /** Once the iterator has moved past a region, everything before it ends left of the window. */
  lemma MovedPast(regions: map<int, Region>, at: int, next: Option<int>, start: int)
    requires RegionsDisjoint(regions) && at in regions && IsLowerBound(regions.Keys, at + 1, next)
    requires regions[at].end < start
    ensures AllLeft(regions, next, start)
    ensures From(regions.Keys, next) < From(regions.Keys, Some(at))
  {
    assert at in From(regions.Keys, Some(at)) && at !in From(regions.Keys, next);
  }

  ghost predicate AllLeft(regions: map<int, Region>, it: Option<int>, start: int) {
    forall k :: k in regions && Before(k, it) ==> regions[k].end < start
  }

  /** The iterator is where a backward search from addr stops, or further on with all before it left of the window. */
  ghost predicate Searching(regions: map<int, Region>, it: Option<int>, start: int, addr: int) {
    || AllLeft(regions, it, start)
    || (it.Some? && it.value <= addr && forall k :: k in regions && k <= addr ==> k <= it.value)
  }

  lemma SearchStarts(regions: map<int, Region>, bound: Option<int>, it: Option<int>, start: int, addr: int)
    requires IsLowerBound(regions.Keys, addr + 1, bound) && IsStepBack(regions.Keys, bound, it)
    ensures Searching(regions, it, start, addr) && (it.Some? ==> it.value in regions)
  {
  }

  lemma SearchDone(regions: map<int, Region>, it: Option<int>, start: int, end: int, addr: int)
    requires RegionsDisjoint(regions) && Searching(regions, it, start, addr) && start <= addr <= end
    requires it.Some? ==> it.value in regions && it.value > end
    ensures forall k :: k in regions ==> regions[k].end < start || k > end
  {
  }

  lemma Replaced(locks: S.Locks, id: S.Id, r: S.Range)
    requires S.Free(locks, r)
    ensures S.Free(locks - {id}, r) && (locks - {id})[id := r] == locks[id := r]
  {
  }

  lemma UnlockOne(locks: S.Locks, id: S.Id, r: S.Range)
    requires id in locks && locks[id].Overlaps(r)
    ensures S.Unlocked(locks - {id}, r) == S.Unlocked(locks, r)
  {
  }

  lemma UnlockNone(locks: S.Locks, r: S.Range)
    requires S.Free(locks, r)
    ensures S.Unlocked(locks, r) == locks
  {
  }

  /** The monitor went from `locks` to `after`, invalidating the transaction's bytes or not, as ExclusiveSpec allows. */
  ghost predicate Follows(locks: S.Locks, txn: Txn, targetOk: bool, after: S.Locks, invalidates: bool)
    requires txn.Ok()
  {
    forall grants :: S.Step(S.State(locks, grants), EventOf(txn, targetOk),
                            S.State(after, if invalidates then S.Without(grants, txn.Bytes()) else grants))
  }

  lemma LoadFollows(locks: S.Locks, txn: Txn)
    requires txn.Ok() && !txn.write && txn.exclusive
    ensures Follows(locks, txn, true, S.LoadLocked(locks, txn.id, txn.Bytes()), S.Free(locks, txn.Bytes()))
  {
  }

  lemma StoreFollows(locks: S.Locks, txn: Txn, targetOk: bool)
    requires txn.Ok() && txn.write
    ensures Follows(locks, txn, targetOk,
      if !txn.exclusive then S.Unlocked(locks, txn.Bytes())
      else if S.StoreSucceeds(locks, txn.id, txn.Bytes()) then locks - {txn.id}
      else locks, false)
  {
  }

  lemma NothingFollows(locks: S.Locks, txn: Txn, targetOk: bool)
    requires txn.Ok() && !txn.write && (!txn.exclusive || !targetOk)
    ensures Follows(locks, txn, targetOk, locks, false)
  {
  }

  ghost function EventOf(txn: Txn, targetOk: bool): S.Event
    requires txn.Ok()
  {
    if txn.write then
      if txn.exclusive then S.ExclusiveStore(txn.id, txn.Bytes()) else S.Store(txn.Bytes())
    else
      if txn.exclusive then S.ExclusiveLoad(txn.id, txn.Bytes(), targetOk) else S.Load(txn.Bytes())
  }
}
