/**
 * `ThreadCache`: per-class free lists in front of the central cache.
 *
 * `Elsewhere(ci)` are the objects of class `ci` that are out and not cached
 * here: with the application, or with another thread.  Allocating moves one
 * object to `Elsewhere`, freeing moves one back, and fetching from or
 * returning to the central cache never changes it.
 */
module ThreadCaches {
  import opened Wrappers
  import opened Pages
  import opened Seqs
  import opened SizeClass
  import opened CentralState
  import opened CentralCaches

  const MAX_CACHED: nat := 256
  const RETURN_THRESHOLD: nat := 32

  /** Above 256 KB the request goes to `malloc`; otherwise an object, or no memory. */
  datatype Allocated = Malloced | NoMemory | Object(ci: nat, addr: nat)

  class ThreadCache {
    const central: CentralCache
    var freeLists: seq<seq<nat>>

    /** The lists hold distinct objects of their class that are out. */
    ghost predicate Caches()
      reads this, central, central.pages, central.pages.os
    {
      CentralValid(central.State()) && Cached(central.HeldNow(), freeLists)
    }

    /** Between operations no list holds more than 255 objects. */
    ghost predicate Valid()
      reads this, central, central.pages, central.pages.os
    {
      Caches() && forall ci | 0 <= ci < NUM_CLASSES :: |freeLists[ci]| < 256
    }

    /** Per class, the objects that are out and not cached here. */
    ghost function Elsewhere(): HeldSets
      requires Caches()
      reads this, central, central.pages, central.pages.os
    {
      NotCached(central.HeldNow(), freeLists)
    }

    constructor (central: CentralCache)
      requires CentralValid(central.State())
      ensures this.central == central && Valid() && freeLists == seq(NUM_CLASSES, i => [])
    {
      this.central := central;
      freeLists := seq(NUM_CLASSES, i => []);
    }

    /** Puts up to 256 objects of the class onto its empty list, the last fetched in front. */
    method FetchFromCentral(ci: nat)
      requires Caches() && ci < NUM_CLASSES && freeLists[ci] == []
      modifies this, central, central.pages, central.pages.os
      ensures Caches() && Elsewhere() == old(Elsewhere())
      ensures freeLists == old(freeLists)[ci := freeLists[ci]] && |freeLists[ci]| <= 256
      ensures |freeLists[ci]| < 256 ==> Exhausted(central.State(), ci)
      ensures central.pages.os.refusals == old(central.pages.os.refusals) + if |freeLists[ci]| < 256 then 1 else 0
    {
      hide CentralValid, AllHeld, HeldNowhere, Gains, Exhausted, FirstFree, PoppedFrom;
      ghost var held := central.HeldNow();
      var objs: seq<nat> := [];
      assert held[ci] + Members([]) == held[ci];
      assert held == held[ci := held[ci]];
      while |objs| < 256
        invariant |objs| <= 256 && unchanged(this) && CentralValid(central.State())
        invariant Fetched(held, central.HeldNow(), ci, objs)
        invariant central.pages.os.refusals == old(central.pages.os.refusals)
        decreases 256 - |objs|
      {
        var r := central.Allocate(ci);
        if r.None? {
          break;
        }
        FetchedOneMore(held, ci, objs, r.value);
        objs := [r.value] + objs;
      }
      FetchedMerge(held, central.HeldNow(), freeLists, ci, objs);
      freeLists := freeLists[ci := objs];
    }

    /** Gives a batch popped from the list of the class back to the central cache. */
    method ReturnBatch(objs: seq<nat>, ci: nat)
      requires CentralValid(central.State()) && ci < NUM_CLASSES
      requires NoDup(objs) && Members(objs) <= central.HeldNow()[ci]
      modifies central, central.pages
      ensures CentralValid(central.State())
      ensures central.HeldNow() == old(central.HeldNow())[ci := old(central.HeldNow())[ci] - Members(objs)]
    {
      hide AllHeld, Loses, ValidExcept;
      ghost var held := central.HeldNow();
      var i := 0;
      assert held[ci] - Members(objs[..0]) == held[ci];
      assert held == held[ci := held[ci]];
      while i < |objs|
        invariant 0 <= i <= |objs| && CentralValid(central.State())
        invariant central.HeldNow() == held[ci := held[ci] - Members(objs[..i])]
      {
        BatchStep(held, ci, objs, i);
        HeldIsOut(central.State(), ci, objs[i]);
        central.Deallocate(objs[i], ci);
        i := i + 1;
      }
      assert objs[..i] == objs;
    }

    /** `allocate`: one object of the least fitting class that nobody had. */
    method Allocate(size: nat) returns (r: Allocated)
      requires Valid()
      modifies this, central, central.pages, central.pages.os
      ensures Valid()
      ensures r.Malloced? <==> size > 262144
      ensures r.Malloced? || r.NoMemory? ==> Elsewhere() == old(Elsewhere())
      ensures r.Object? ==>
                && r.ci < NUM_CLASSES && LeastFit(size, r.ci)
                && r.addr !in old(Elsewhere())[r.ci]
                && Elsewhere() == old(Elsewhere())[r.ci := old(Elsewhere())[r.ci] + {r.addr}]
      ensures forall ci | 0 <= ci < NUM_CLASSES && LeastFit(size, ci) ::
                if old(freeLists)[ci] != []
                then r == Object(ci, old(freeLists)[ci][0]) && central.State() == old(central.State()) &&
                     freeLists == old(freeLists)[ci := old(freeLists)[ci][1..]]
                else (r.NoMemory? ==> freeLists == old(freeLists) && Exhausted(central.State(), ci)) &&
                     (r.Object? ==> freeLists == old(freeLists)[ci := freeLists[ci]] &&
                                    (|freeLists[ci]| < 255 ==> Exhausted(central.State(), ci)))
      ensures r.NoMemory? ==> central.pages.os.refusals == old(central.pages.os.refusals) + 1
      ensures forall ci | 0 <= ci < NUM_CLASSES && LeastFit(size, ci) && old(freeLists)[ci] == [] && r.Object? ::
                |freeLists[ci]| < 255 <==> central.pages.os.refusals == old(central.pages.os.refusals) + 1
    {
      hide CentralValid, AllHeld, Exhausted;
      var index := GetIndex(size);
      if index.None? {
        return Malloced;
      }
      var ci := index.value;
      if freeLists[ci] == [] {
        FetchFromCentral(ci);
        if freeLists[ci] == [] {
          return NoMemory;
        }
      }
      PoppedOne(central.HeldNow(), freeLists, ci);
      var obj := freeLists[ci][0];
      freeLists := freeLists[ci := freeLists[ci][1..]];
      return Object(ci, obj);
    }

    /**
     * `deallocate` of an object that `allocate` handed out, here or to another
     * thread, for a size of the same class.  Above 256 KB it is `free`.
     */
    method Deallocate(obj: nat, size: nat) returns (index: Option<nat>)
      requires Valid()
      requires forall ci | 0 <= ci < NUM_CLASSES && LeastFit(size, ci) :: obj in Elsewhere()[ci]
      modifies this, central, central.pages
      ensures Valid()
      ensures index.None? <==> size > 262144
      ensures index.None? ==> Elsewhere() == old(Elsewhere())
      ensures index.Some? ==>
                && index.value < NUM_CLASSES && LeastFit(size, index.value)
                && Elsewhere() == old(Elsewhere())[index.value := old(Elsewhere())[index.value] - {obj}]
                && freeLists == old(freeLists)[index.value := Trimmed([obj] + old(freeLists)[index.value])]
    {
      hide CentralValid, AllHeld;
      index := GetIndex(size);
      if index.None? {
        return;
      }
      var ci := index.value;
      assert LeastFit(size, ci);
      PushedOne(central.HeldNow(), freeLists, ci, obj);
      freeLists := freeLists[ci := [obj] + freeLists[ci]];
      if |freeLists[ci]| > RETURN_THRESHOLD {
        ReturnToCentral(ci, false);
      }
    }

    /** The destructor: every cached object goes back to the central cache. */
    method Destroy()
      requires Caches()
      modifies this, central, central.pages
      ensures Caches() && Elsewhere() == old(Elsewhere())
      ensures forall ci | 0 <= ci < NUM_CLASSES :: freeLists[ci] == []
      ensures central.HeldNow() == old(Elsewhere())
    {
      hide CentralValid, AllHeld;
      var i := 0;
      while i < |freeLists|
        invariant 0 <= i <= NUM_CLASSES
        invariant Caches() && Elsewhere() == old(Elsewhere())
        invariant forall ci | 0 <= ci < i :: freeLists[ci] == []
      {
        if freeLists[i] != [] {
          ReturnToCentral(i, true);
        }
        i := i + 1;
      }
      forall ci | 0 <= ci < NUM_CLASSES
        ensures Elsewhere()[ci] == central.HeldNow()[ci]
      {
        assert Members(freeLists[ci]) == {};
      }
    }

    /** Returns the front half of the list, or all of it, in batches of at most 256. */
    method ReturnToCentral(ci: nat, returnAll: bool)
      requires Caches() && ci < NUM_CLASSES
      modifies this, central, central.pages
      ensures Caches() && Elsewhere() == old(Elsewhere())
      ensures var n := |old(freeLists)[ci]|;
              freeLists == old(freeLists)[ci := old(freeLists)[ci][(if returnAll then n else n / 2)..]]
    {
      hide CentralValid, AllHeld;
      var list := freeLists[ci];
      var goal := if returnAll then |list| else |list| / 2;
      var target := goal;
      ghost var held := central.HeldNow();
      assert freeLists == freeLists[ci := list[0..]];
      while target > 0
        invariant 0 <= target <= goal && CentralValid(central.State())
        invariant freeLists == old(freeLists)[ci := list[goal - target..]]
        invariant Cached(central.HeldNow(), freeLists)
        invariant NotCached(central.HeldNow(), freeLists) == NotCached(held, old(freeLists))
      {
        var batch := if target < 256 then target else 256;
        var objs := freeLists[ci][..batch];
        ReturnedBatch(central.HeldNow(), freeLists, ci, batch);
        ReturnBatch(objs, ci);
        freeLists := freeLists[ci := freeLists[ci][batch..]];
        assert list[goal - target..][batch..] == list[goal - (target - batch)..];
        target := target - batch;
      }
    }
  }

  // ---- The lists as values ----

  /** The least class whose objects hold `size` bytes. */
  ghost predicate LeastFit(size: nat, ci: nat)
    requires ci < NUM_CLASSES
  {
    size <= Size(ci) && forall i | 0 <= i < ci :: Size(i) < size
  }

  /** A list that has grown beyond the threshold gives its front half away. */
  function Trimmed(list: seq<nat>): seq<nat> {
    if |list| > 32 then list[|list| / 2..] else list
  }

  type Lists = s: seq<seq<nat>> | |s| == NUM_CLASSES witness seq(NUM_CLASSES, i => [])

  ghost predicate Cached(held: HeldSets, lists: seq<seq<nat>>) {
    |lists| == NUM_CLASSES &&
    forall ci | 0 <= ci < NUM_CLASSES :: NoDup(lists[ci]) && Members(lists[ci]) <= held[ci]
  }

  ghost function NotCached(held: HeldSets, lists: seq<seq<nat>>): HeldSets
    requires |lists| == NUM_CLASSES
  {
    seq(NUM_CLASSES, ci requires 0 <= ci < NUM_CLASSES => held[ci] - Members(lists[ci]))
  }

  /** `now` is `held` plus the fetched objects, which nobody held. */
  ghost predicate Fetched(held: HeldSets, now: HeldSets, ci: nat, objs: seq<nat>)
    requires ci < NUM_CLASSES
  {
    && NoDup(objs)
    && now == held[ci := held[ci] + Members(objs)]
    && forall o | o in objs :: HeldNowhere(held, o)
  }

  lemma FetchedOneMore(held: HeldSets, ci: nat, objs: seq<nat>, obj: nat)
    requires ci < NUM_CLASSES
    requires Fetched(held, held[ci := held[ci] + Members(objs)], ci, objs)
    requires HeldNowhere(held[ci := held[ci] + Members(objs)], obj)
    ensures Fetched(held, held[ci := held[ci] + Members(objs)][ci := held[ci] + Members(objs) + {obj}], ci, [obj] + objs)
  {
    var now := held[ci := held[ci] + Members(objs)];
    assert obj !in now[ci] && obj !in objs;
    NoDupCons(obj, objs);
    assert held[ci] + Members(objs) + {obj} == held[ci] + Members([obj] + objs);
    forall cj | 0 <= cj < NUM_CLASSES
      ensures obj !in held[cj]
    {
      assert obj !in now[cj];
    }
  }

  lemma FetchedMerge(held: HeldSets, now: HeldSets, lists: seq<seq<nat>>, ci: nat, objs: seq<nat>)
    requires ci < NUM_CLASSES && Cached(held, lists) && lists[ci] == [] && Fetched(held, now, ci, objs)
    ensures Cached(now, lists[ci := objs]) && NotCached(now, lists[ci := objs]) == NotCached(held, lists)
  {
    assert forall o | o in objs :: o !in held[ci];
    assert now[ci] - Members(objs) == held[ci] - Members(lists[ci]);
  }

  lemma BatchStep(held: HeldSets, ci: nat, objs: seq<nat>, i: nat)
    requires ci < NUM_CLASSES && i < |objs| && NoDup(objs) && Members(objs) <= held[ci]
    ensures objs[i] in held[ci] - Members(objs[..i])
    ensures held[ci] - Members(objs[..i]) - {objs[i]} == held[ci] - Members(objs[..i + 1])
  {
    assert objs[i] in Members(objs);
    assert objs[..i + 1] == objs[..i] + [objs[i]];
  }

  lemma ReturnedBatch(held: HeldSets, lists: seq<seq<nat>>, ci: nat, n: nat)
    requires ci < NUM_CLASSES && Cached(held, lists) && n <= |lists[ci]|
    ensures NoDup(lists[ci][..n]) && Members(lists[ci][..n]) <= held[ci]
    ensures var held', lists' := held[ci := held[ci] - Members(lists[ci][..n])], lists[ci := lists[ci][n..]];
            Cached(held', lists') && NotCached(held', lists') == NotCached(held, lists)
  {
    var list := lists[ci];
    assert list == list[..n] + list[n..];
    assert forall o | o in list[..n] :: o in list;
    forall o | o in list[n..]
      ensures o !in list[..n] && o in list
    {
      var k :| n <= k < |list| && list[k] == o;
    }
    assert Members(list) == Members(list[..n]) + Members(list[n..]);
    assert held[ci] - Members(list[..n]) - Members(list[n..]) == held[ci] - Members(list);
  }

  lemma PoppedOne(held: HeldSets, lists: seq<seq<nat>>, ci: nat)
    requires ci < NUM_CLASSES && Cached(held, lists) && lists[ci] != []
    ensures var obj, lists' := lists[ci][0], lists[ci := lists[ci][1..]];
            && Cached(held, lists') && obj !in NotCached(held, lists)[ci]
            && NotCached(held, lists') == NotCached(held, lists)[ci := NotCached(held, lists)[ci] + {obj}]
  {
    var list := lists[ci];
    assert list == [list[0]] + list[1..];
    assert list[0] in Members(list) && Members(list[1..]) == Members(list) - {list[0]};
    assert held[ci] - Members(list[1..]) == held[ci] - Members(list) + {list[0]};
  }

  lemma PushedOne(held: HeldSets, lists: seq<seq<nat>>, ci: nat, obj: nat)
    requires ci < NUM_CLASSES && Cached(held, lists) && obj in NotCached(held, lists)[ci]
    ensures var lists' := lists[ci := [obj] + lists[ci]];
            && Cached(held, lists')
            && NotCached(held, lists') == NotCached(held, lists)[ci := NotCached(held, lists)[ci] - {obj}]
  {
    NoDupCons(obj, lists[ci]);
    assert Members([obj] + lists[ci]) == Members(lists[ci]) + {obj};
    assert held[ci] - Members([obj] + lists[ci]) == held[ci] - Members(lists[ci]) - {obj};
  }
}
