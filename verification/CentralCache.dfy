/** `CentralCache`: one list of carved spans per size class, refilled from the page cache. */
module CentralCaches {
  import opened Wrappers
  import opened Pages
  import opened Seqs
  import opened SizeClass
  import opened CentralState

  class CentralCache {
    const pageSize: nat
    const pages: PageCache
    var spanLists: seq<seq<SpanRef>>

    ghost function State(): CentralState
      reads this, pages, pages.os
    {
      CentralState(pageSize, pages.State(), spanLists)
    }

    /** Per class, the objects that are with a thread or with the application. */
    ghost function HeldNow(): HeldSets
      requires CentralValid(State())
      reads this, pages, pages.os
    {
      AllHeld(State())
    }

    constructor (pages: PageCache, pageSize: nat)
      requires Pages.Valid(pages.State()) && pages.outstanding == {} && pageSize > 0
      ensures this.pages == pages && this.pageSize == pageSize
      ensures CentralValid(State()) && forall ci | 0 <= ci < NUM_CLASSES :: HeldNow()[ci] == {}
    {
      this.pages, this.pageSize := pages, pageSize;
      spanLists := seq(NUM_CLASSES, i => []);
    }

    /** Cuts the span into objects of the class, each pushed in front of the one before. */
    method Carve(s: SpanRef, ci: nat)
      requires s in pages.heap && ci < NUM_CLASSES && pageSize > 0
      modifies pages`heap
      ensures pages.heap == old(pages.heap)[s := Carved(old(pages.heap)[s], ci, pageSize)]
    {
      hide Capacity, Slot;
      var c := Size(ci);
      ghost var was := pages.heap[s];
      var span := pages.heap[s].(sizeClass := ci, freeCount := 0, freeList := []);
      var totalSize := span.numPages * pageSize;
      var base := span.pageId * pageSize;
      var offset := 0;
      while offset + c <= totalSize
        invariant offset == span.freeCount * c && offset <= totalSize && pages.heap == old(pages.heap)
        invariant span.freeList == CarveList(base, c, span.freeCount)
        invariant span == was.(sizeClass := ci, freeCount := span.freeCount, freeList := span.freeList)
        decreases totalSize - offset
      {
        OneMoreTimes(span.freeCount, c);
        span := span.(freeList := [Slot(base, c, span.freeCount)] + span.freeList, freeCount := span.freeCount + 1);
        offset := offset + c;
      }
      CarvedAll(was.numPages, c, pageSize, span.freeCount);
      assert span.(totalObjects := span.freeCount) == Carved(was, ci, pageSize);
      pages.heap := pages.heap[s := span.(totalObjects := span.freeCount)];
    }

    lemma OneMoreTimes(n: nat, c: nat)
      ensures (n + 1) * c == n * c + c
    {
    }

    /** `fetch_from_page_cache`. */
    method FetchFromPageCache(ci: nat) returns (r: Option<SpanRef>)
      requires Pages.Valid(pages.State()) && ci < NUM_CLASSES && pageSize > 0
      modifies pages, pages.os
      ensures r.None? ==> pages.State() == old(pages.State()) && NoFit(old(pages.State()), PagesFor(Size(ci), pageSize))
      ensures pages.os.refusals == old(pages.os.refusals) + if r.None? then 1 else 0
      ensures r.Some? ==> exists st': PageState ::
                && r.value in st'.heap
                && HandedOut(old(pages.State()), st', PagesFor(Size(ci), pageSize), r.value)
                && pages.State() == st'.(heap := st'.heap[r.value := Carved(st'.heap[r.value], ci, pageSize)])
    {
      hide ValidExcept, HandedOut, Carved;
      PagesForPositive(Size(ci), pageSize);
      ghost var st0 := pages.State();
      r := pages.AllocateSpan(PagesFor(Size(ci), pageSize));
      if r.None? {
        return;
      }
      ghost var st' := pages.State();
      AllocationHandsOut(st0, st', PagesFor(Size(ci), pageSize), r.value);
      HandedOutInHeap(st0, st', PagesFor(Size(ci), pageSize), r.value);
      Carve(r.value, ci);
    }

    /** The first span on the class's list with a free object, if any. */
    method FindFree(ci: nat) returns (i: nat)
      requires KnownSpans(State(), ci)
      ensures i <= |spanLists[ci]|
      ensures i < |spanLists[ci]| ==> pages.heap[spanLists[ci][i]].freeCount > 0
      ensures forall j | 0 <= j < i :: pages.heap[spanLists[ci][j]].freeCount == 0
    {
      i := 0;
      while i < |spanLists[ci]| && pages.heap[spanLists[ci][i]].freeCount == 0
        invariant i <= |spanLists[ci]|
        invariant forall j | 0 <= j < i :: pages.heap[spanLists[ci][j]].freeCount == 0
      {
        i := i + 1;
      }
    }

    /**
     * One object of the class, held by nobody before: the front object of the
     * first span that has one, else of a new span; none only when all spans of
     * the class are used up and no free span is large enough.
     */
    method Allocate(ci: nat) returns (r: Option<nat>)
      requires CentralValid(State()) && ci < NUM_CLASSES
      modifies this, pages, pages.os
      ensures CentralValid(State())
      ensures r.None? ==> State() == old(State()) && Exhausted(old(State()), ci)
      ensures pages.os.refusals == old(pages.os.refusals) + if r.None? then 1 else 0
      ensures forall i | 0 <= i < |old(spanLists)[ci]| && FirstFree(old(State()), ci, i) ::
                PoppedFrom(old(State()), State(), old(spanLists)[ci][i], r)
      ensures r.Some? ==> Gains(old(State()), State(), ci, r.value)
      ensures r.Some? ==> HeldNowhere(old(HeldNow()), r.value)
      ensures r.Some? ==> HeldNow() == old(HeldNow())[ci := old(HeldNow())[ci] + {r.value}]
    {
      hide ValidExcept, HandedOut, Carved, Gains, AllHeld, HeldNowhere;
      ghost var cs := State();
      EachListed(cs, ci);
      var i := FindFree(ci);
      FirstFreeIs(cs, ci, i);
      hide FirstFree, Exhausted;
      if i < |spanLists[ci]| {
        var s := spanLists[ci][i];
        SpanHasList(cs, ci, s);
        var obj := pages.heap[s].freeList[0];
        PopGains(cs, ci, s);
        pages.heap := pages.heap[s := Popped(pages.heap[s])];
        GainsAll(cs, State(), ci, obj);
        return Some(obj);
      }
      var fetched := FetchFromPageCache(ci);
      if fetched.None? {
        AllUsedUp(cs, ci);
        return None;
      }
      var s := fetched.value;
      ghost var st': PageState :| s in st'.heap && HandedOut(cs.pages, st', PagesFor(Size(ci), pageSize), s) &&
        pages.State() == st'.(heap := st'.heap[s := Carved(st'.heap[s], ci, pageSize)]);
      HandedOutInHeap(cs.pages, st', PagesFor(Size(ci), pageSize), s);
      CarvedAndPopped(st'.heap[s], ci, pageSize);
      FetchGains(cs, ci, s, st');
      var obj := pages.heap[s].freeList[0];
      spanLists := spanLists[ci := [s] + spanLists[ci]];
      pages.heap := pages.heap[s := Popped(pages.heap[s])];
      assert pages.heap == st'.heap[s := Popped(Carved(st'.heap[s], ci, pageSize))];
      GainsAll(cs, State(), ci, obj);
      return Some(obj);
    }

    /** The span on the class's list whose pages contain the address, if any. */
    method FindSpan(obj: nat, ci: nat) returns (i: nat)
      requires KnownSpans(State(), ci) && pageSize > 0
      ensures i <= |spanLists[ci]|
      ensures i < |spanLists[ci]| ==> pages.heap[spanLists[ci][i]].Has(PageOf(obj, pageSize))
      ensures forall j | 0 <= j < i :: !pages.heap[spanLists[ci][j]].Has(PageOf(obj, pageSize))
    {
      i := 0;
      while i < |spanLists[ci]| && !pages.heap[spanLists[ci][i]].Has(PageOf(obj, pageSize))
        invariant i <= |spanLists[ci]|
        invariant forall j | 0 <= j < i :: !pages.heap[spanLists[ci][j]].Has(PageOf(obj, pageSize))
      {
        i := i + 1;
      }
    }

    /**
     * Takes an object back.  The caller may pass any address that is not inside
     * a span of the class, and such an address is ignored; an address inside one
     * must be an object that is out.  The span goes back to the page cache
     * exactly when its last object does.
     */
    method Deallocate(obj: nat, ci: nat)
      requires CentralValid(State()) && ci < NUM_CLASSES
      requires forall s | s in spanLists[ci] && pages.heap[s].Has(PageOf(obj, pageSize)) ::
                 obj in Out(pages.heap[s], Size(ci), pageSize)
      modifies this, pages
      ensures CentralValid(State())
      ensures if obj in Held(old(State()), ci) then Loses(old(State()), State(), ci, obj)
              else State() == old(State())
      ensures HeldNow() == old(HeldNow())[ci := old(HeldNow())[ci] - {obj}]
      ensures SpanSettled(old(State()), State(), ci, obj)
    {
      hide ValidExcept, Loses;
      ghost var cs := State();
      EachListed(cs, ci);
      var i := FindSpan(obj, ci);
      if i == |spanLists[ci]| {
        NotHeldIfNotFound(cs, ci, obj);
        assert AllHeld(cs)[ci] == Held(cs, ci) && Held(cs, ci) - {obj} == Held(cs, ci);
        assert HeldNow() == HeldNow()[ci := HeldNow()[ci]];
        return;
      }
      var s := spanLists[ci][i];
      SpanHasList(cs, ci, s);
      LastOneOut(pages.heap[s], ci, pageSize, obj);
      HeldMembers(cs, ci, obj);
      OnlySpanOf(cs, ci, s, obj);
      hide SpanOk, Out, Objects;
      pages.heap := pages.heap[s := Put(pages.heap[s], obj)];
      if pages.heap[s].freeCount == pages.heap[s].totalObjects {
        GiveBack(s, ci, cs);
        ReturnLoses(cs, ci, s, obj, pages.State());
        WithoutMembers(cs.lists[ci], s);
      } else {
        PutLoses(cs, ci, s, obj);
      }
      LosesAll(cs, State(), ci, obj);
    }

    /** Unlinks the span, clears its fields and frees it. */
    method GiveBack(s: SpanRef, ci: nat, ghost cs: CentralState)
      requires ListsOk(cs) && Pages.Valid(cs.pages) && ci < NUM_CLASSES && s in cs.lists[ci]
      requires s in pages.heap && pages.heap[s].pageId == cs.pages.heap[s].pageId
      requires pages.heap[s].numPages == cs.pages.heap[s].numPages
      requires State() == WithSpan(cs, s, pages.heap[s])
      modifies this, pages
      ensures spanLists == old(spanLists)[ci := Without(old(spanLists)[ci], s)]
      ensures TakenBack(cs.pages, pages.State(), s)
    {
      hide ValidExcept, ListsOk;
      SpanHasList(cs, ci, s);
      OutstandingOfList(cs, ci, s);
      NotDeleted(cs.pages, {});
      spanLists := spanLists[ci := Without(spanLists[ci], s)];
      var cleared := pages.heap[s].(freeList := [], freeCount := 0, totalObjects := 0);
      ExtentsDecide(cs.pages, s, cleared);
      pages.heap := pages.heap[s := cleared];
      assert pages.State() == cs.pages.(heap := cs.pages.heap[s := cleared]);
      pages.FreeSpan(s);
      NotDeleted(pages.State(), {});
    }
  }

  /** The spans on the class's list are spans. */
  ghost predicate KnownSpans(cs: CentralState, ci: nat) {
    ci < |cs.lists| && forall s | s in cs.lists[ci] :: s in cs.pages.heap
  }

  lemma EachListed(cs: CentralState, ci: nat)
    requires ListsOk(cs) && ci < NUM_CLASSES
    ensures KnownSpans(cs, ci) && cs.pageSize > 0
  {
    hide SpanOk;
  }

  /** The `i`-th span of the class is the first with a free object. */
  ghost predicate FirstFree(cs: CentralState, ci: nat, i: nat)
    requires ListsOk(cs) && ci < NUM_CLASSES && i < |cs.lists[ci]|
  {
    && cs.pages.heap[cs.lists[ci][i]].freeCount > 0
    && forall j | 0 <= j < i :: cs.pages.heap[cs.lists[ci][j]].freeCount == 0
  }

  ghost predicate PoppedFrom(cs: CentralState, cs': CentralState, s: SpanRef, r: Option<nat>) {
    && s in cs.pages.heap && cs.pages.heap[s].freeList != [] && cs.pages.heap[s].freeCount > 0
    && r == Some(cs.pages.heap[s].freeList[0]) && cs' == WithSpan(cs, s, Popped(cs.pages.heap[s]))
  }

  /** The class has no free object, and the page level no span for another batch. */
  ghost predicate Exhausted(cs: CentralState, ci: nat)
    requires ListsOk(cs) && ci < NUM_CLASSES
  {
    && (forall s | s in cs.lists[ci] :: cs.pages.heap[s].freeCount == 0)
    && NoFit(cs.pages, PagesFor(Size(ci), cs.pageSize))
  }

  lemma FirstFreeIs(cs: CentralState, ci: nat, i: nat)
    requires KnownSpans(cs, ci) && i <= |cs.lists[ci]|
    requires i < |cs.lists[ci]| ==> cs.pages.heap[cs.lists[ci][i]].freeCount > 0
    requires forall j | 0 <= j < i :: cs.pages.heap[cs.lists[ci][j]].freeCount == 0
    requires ListsOk(cs) && ci < NUM_CLASSES
    ensures forall k | 0 <= k < |cs.lists[ci]| :: FirstFree(cs, ci, k) <==> k == i
    ensures i == |cs.lists[ci]| ==> forall s | s in cs.lists[ci] :: cs.pages.heap[s].freeCount == 0
  {
    hide ListsOk;
  }

  lemma AllUsedUp(cs: CentralState, ci: nat)
    requires ListsOk(cs) && ci < NUM_CLASSES && NoFit(cs.pages, PagesFor(Size(ci), cs.pageSize))
    requires forall s | s in cs.lists[ci] :: cs.pages.heap[s].freeCount == 0
    ensures Exhausted(cs, ci)
  {
  }

  lemma NotHeldIfNotFound(cs: CentralState, ci: nat, obj: nat)
    requires ListsOk(cs) && ci < NUM_CLASSES
    requires forall s | s in cs.lists[ci] :: !cs.pages.heap[s].Has(PageOf(obj, cs.pageSize))
    ensures obj !in Held(cs, ci)
  {
    forall s | s in cs.lists[ci]
      ensures obj !in Out(cs.pages.heap[s], Size(ci), cs.pageSize)
    {
      if obj in Objects(cs.pages.heap[s], Size(ci), cs.pageSize) {
        ObjectWithin(cs.pages.heap[s], Size(ci), cs.pageSize, obj);
      }
    }
  }

  lemma OutstandingOfList(cs: CentralState, ci: nat, s: SpanRef)
    requires ListsOk(cs) && ci < NUM_CLASSES && s in cs.lists[ci]
    ensures s in cs.pages.outstanding && |cs.lists| == NUM_CLASSES
  {
  }

  lemma OnlySpanOf(cs: CentralState, ci: nat, s: SpanRef, obj: nat)
    requires ListsOk(cs) && ci < NUM_CLASSES && s in cs.lists[ci]
    requires obj in Out(cs.pages.heap[s], Size(ci), cs.pageSize)
    requires Pages.Valid(cs.pages)
    ensures forall t | t in cs.lists[ci] && obj in Out(cs.pages.heap[t], Size(ci), cs.pageSize) :: t == s
  {
    hide ValidExcept, SpanOk;
    NotHeldElsewhere(cs, ci, s, obj, ci);
  }

  lemma SpanHasList(cs: CentralState, ci: nat, s: SpanRef)
    requires ListsOk(cs) && ci < NUM_CLASSES && s in cs.lists[ci]
    ensures s in cs.pages.heap && SpanOk(cs.pages.heap[s], ci, cs.pageSize)
    ensures cs.pages.heap[s].freeCount == |cs.pages.heap[s].freeList|
  {
  }

  lemma PagesForPositive(c: nat, pageSize: nat)
    requires pageSize > 0
    ensures PagesFor(c, pageSize) > 0
  {
  }

  lemma HandedOutInHeap(st: PageState, st': PageState, n: nat, s: SpanRef)
    requires HandedOut(st, st', n, s)
    ensures s in st'.heap && st'.heap[s].numPages == n
  {
  }

  /** The carving loop stops at the capacity of the span. */
  lemma CarvedAll(numPages: nat, c: nat, pageSize: nat, n: nat)
    requires c > 0 && n * c <= numPages * pageSize && n * c + c > numPages * pageSize
    ensures n == Capacity(numPages, c, pageSize)
  {
    var total, q := numPages * pageSize, Capacity(numPages, c, pageSize);
    DivBounds(total, c);
    assert (n + 1) * c == n * c + c;
    if n < q {
      MulMono(n + 1, q, c);
    } else if n > q {
      MulMono(q + 1, n, c);
    }
  }
}
