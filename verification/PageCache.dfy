/**
 * The page level of the allocator: spans of whole pages are handed out, split,
 * taken back and coalesced.
 *
 * `Span*` is a `SpanRef` into the arena `heap`; `new` adds an entry and
 * `delete` removes it, so following a dangling pointer would be a verification
 * error.  `free_span_lists_` is a map from page count to the sequence of spans
 * on that list, front first; `SpanList.dfy` proves that the sentinel ring
 * implements exactly those sequence operations.
 */
module Pages {
  import opened Wrappers
  import opened Seqs

  type SpanRef = nat

  /** A run of consecutive pages and, while a size class owns it, its carved objects. */
  datatype Span = Span(pageId: nat, numPages: nat, sizeClass: nat,
                       freeList: seq<nat>, freeCount: nat, totalObjects: nat)
  {
    predicate Has(p: nat) {
      pageId <= p < pageId + numPages
    }

    function End(): nat {
      pageId + numPages
    }
  }

  function FreshSpan(pageId: nat, numPages: nat): Span {
    Span(pageId, numPages, 0, [], 0, 0)
  }

  function PageRange(start: nat, n: nat): (r: set<nat>)
    ensures forall p: nat :: p in r <==> start <= p < start + n
  {
    if n == 0 then {} else PageRange(start, n - 1) + {start + n - 1}
  }

  function PagesOf(s: Span): (r: set<nat>)
    ensures forall p: nat :: p in r <==> s.Has(p)
  {
    PageRange(s.pageId, s.numPages)
  }

  // ---- The state of the page level ----

  /** `free_span_lists_[n]`. */
  function ListOf(lists: map<nat, seq<SpanRef>>, n: nat): seq<SpanRef> {
    if n in lists then lists[n] else []
  }

  function Pushed(lists: map<nat, seq<SpanRef>>, n: nat, s: SpanRef): map<nat, seq<SpanRef>> {
    lists[n := [s] + ListOf(lists, n)]
  }

  function Unlinked(lists: map<nat, seq<SpanRef>>, n: nat, s: SpanRef): map<nat, seq<SpanRef>> {
    lists[n := Without(ListOf(lists, n), s)]
  }

  /**
   * `free` and `outstanding` are the spans the cache holds and the spans it has
   * handed out; `owner` names the holder of every mapped page.
   */
  datatype PageState = PageState(heap: map<SpanRef, Span>,
                                 pageMap: map<nat, SpanRef>,
                                 lists: map<nat, seq<SpanRef>>,
                                 mapped: set<nat>,
                                 free: set<SpanRef>,
                                 outstanding: set<SpanRef>,
                                 owner: map<nat, SpanRef>)

  /** `owner` names, for exactly the pages of the spans, the one span that holds the page. */
  ghost predicate Owns(heap: map<SpanRef, Span>, spans: set<SpanRef>, owner: map<nat, SpanRef>) {
    && spans <= heap.Keys
    && (forall s | s in spans :: heap[s].numPages > 0)
    && (forall p | p in owner :: owner[p] in spans && heap[owner[p]].Has(p))
    && (forall s, p: nat | s in spans && heap[s].Has(p) :: p in owner && owner[p] == s)
  }

  /** No free span ends where another begins. */
  ghost predicate NonAdjacent(heap: map<SpanRef, Span>, free: set<SpanRef>)
    requires free <= heap.Keys
  {
    forall s, t | s in free && t in free :: heap[s].End() != heap[t].pageId
  }

  /** Each free span is on the list of its size, once, and on no other. */
  ghost predicate Listed(heap: map<SpanRef, Span>, free: set<SpanRef>, lists: map<nat, seq<SpanRef>>)
    requires free <= heap.Keys
  {
    && (forall n | n in lists :: NoDup(lists[n]))
    && (forall n, s | n in lists && s in lists[n] :: s in free && heap[s].numPages == n)
    && (forall s | s in free :: heap[s].numPages in lists && s in lists[heap[s].numPages])
  }

  /** The invariant while the spans `pending` are neither free nor handed out. */
  ghost predicate ValidExcept(st: PageState, pending: set<SpanRef>) {
    && st.free !! st.outstanding
    && st.free !! pending
    && st.outstanding !! pending
    && st.mapped == st.owner.Keys
    && 0 !in st.owner
    && Owns(st.heap, st.free + st.outstanding + pending, st.owner)
    && Owns(st.heap, st.free, st.pageMap)
    && NonAdjacent(st.heap, st.free)
    && Listed(st.heap, st.free, st.lists)
  }

  ghost predicate Valid(st: PageState) {
    ValidExcept(st, {})
  }

  /** No span the cache knows has been deleted. */
  lemma NotDeleted(st: PageState, pending: set<SpanRef>)
    requires ValidExcept(st, pending)
    ensures st.free + st.outstanding + pending <= st.heap.Keys
  {
  }

  // ---- Coalescing ----

  /** The extent of two touching spans, in the fields of the first. */
  function Joined(span: Span, other: Span): Span {
    span.(pageId := if other.End() == span.pageId then other.pageId else span.pageId,
          numPages := span.numPages + other.numPages)
  }

  predicate Touching(a: Span, b: Span) {
    a.End() == b.pageId || b.End() == a.pageId
  }

  function Repaint(owner: map<nat, SpanRef>, pages: set<nat>, s: SpanRef): map<nat, SpanRef> {
    map p | p in owner.Keys + pages :: if p in pages then s else owner[p]
  }

  /** One turn of a coalescing loop: the free span `gone` is merged into `into` and deleted. */
  function Absorb(st: PageState, into: SpanRef, gone: SpanRef): PageState
    requires into in st.heap && gone in st.heap
  {
    var other := st.heap[gone];
    var n := other.numPages;
    st.(heap := st.heap[into := Joined(st.heap[into], other)] - {gone},
        pageMap := st.pageMap - PagesOf(other),
        lists := Unlinked(st.lists, n, gone),
        free := st.free - {gone},
        owner := Repaint(st.owner, PagesOf(other), into))
  }

  lemma MergePaints(heap: map<SpanRef, Span>, spans: set<SpanRef>, owner: map<nat, SpanRef>,
                    into: SpanRef, gone: SpanRef)
    requires Owns(heap, spans, owner)
    requires into in spans && gone in spans && into != gone
    requires Touching(heap[into], heap[gone])
    ensures var heap' := heap[into := Joined(heap[into], heap[gone])] - {gone};
            var owner' := Repaint(owner, PagesOf(heap[gone]), into);
            forall p | p in owner' :: owner'[p] in spans - {gone} && heap'[owner'[p]].Has(p)
  {
    var heap' := heap[into := Joined(heap[into], heap[gone])] - {gone};
    var owner' := Repaint(owner, PagesOf(heap[gone]), into);
    forall p | p in owner'
      ensures owner'[p] in spans - {gone} && heap'[owner'[p]].Has(p)
    {
      if !heap[gone].Has(p) {
        assert owner'[p] == owner[p] && heap[owner[p]].Has(p);
      }
    }
  }

  lemma OwnsAfterMerge(heap: map<SpanRef, Span>, spans: set<SpanRef>, owner: map<nat, SpanRef>,
                       into: SpanRef, gone: SpanRef)
    requires Owns(heap, spans, owner)
    requires into in spans && gone in spans && into != gone
    requires Touching(heap[into], heap[gone])
    ensures Owns(heap[into := Joined(heap[into], heap[gone])] - {gone}, spans - {gone},
                 Repaint(owner, PagesOf(heap[gone]), into))
  {
    var heap' := heap[into := Joined(heap[into], heap[gone])] - {gone};
    var owner' := Repaint(owner, PagesOf(heap[gone]), into);
    MergePaints(heap, spans, owner, into, gone);
    forall s, p: nat | s in spans - {gone} && heap'[s].Has(p)
      ensures p in owner' && owner'[p] == s
    {
      if s == into {
        assert heap[into].Has(p) || heap[gone].Has(p);
      } else {
        assert heap[s].Has(p) && owner[p] == s;
      }
    }
  }

  lemma OwnsAfterDrop(heap: map<SpanRef, Span>, spans: set<SpanRef>, owner: map<nat, SpanRef>,
                      gone: SpanRef)
    requires Owns(heap, spans, owner) && gone in spans
    ensures Owns(heap, spans - {gone}, owner - PagesOf(heap[gone]))
  {
    forall s, p: nat | s in spans - {gone} && heap[s].Has(p)
      ensures p !in PagesOf(heap[gone])
    {
      assert owner[p] == s;
    }
  }

  /** Ownership depends only on the spans it speaks of. */
  lemma OwnsSameSpans(heap: map<SpanRef, Span>, heap': map<SpanRef, Span>, spans: set<SpanRef>,
                      owner: map<nat, SpanRef>)
    requires Owns(heap, spans, owner) && spans <= heap'.Keys
    requires forall s | s in spans :: heap'[s].pageId == heap[s].pageId && heap'[s].numPages == heap[s].numPages
    ensures Owns(heap', spans, owner)
  {
    assert forall s, p: nat | s in spans :: heap'[s].Has(p) == heap[s].Has(p);
  }

  lemma ListedAfterDrop(heap: map<SpanRef, Span>, free: set<SpanRef>, lists: map<nat, seq<SpanRef>>,
                        gone: SpanRef)
    requires free <= heap.Keys && Listed(heap, free, lists) && gone in free
    ensures var n := heap[gone].numPages;
            Listed(heap, free - {gone}, Unlinked(lists, n, gone))
  {
    WithoutMembers(lists[heap[gone].numPages], gone);
  }

  lemma ListedSameSpans(heap: map<SpanRef, Span>, heap': map<SpanRef, Span>, free: set<SpanRef>,
                        lists: map<nat, seq<SpanRef>>)
    requires free <= heap.Keys && Listed(heap, free, lists) && free <= heap'.Keys
    requires forall s | s in free :: heap'[s].numPages == heap[s].numPages
    ensures Listed(heap', free, lists)
  {
  }

  lemma NonAdjacentSameSpans(heap: map<SpanRef, Span>, heap': map<SpanRef, Span>, free: set<SpanRef>)
    requires free <= heap.Keys && free <= heap'.Keys && NonAdjacent(heap, free)
    requires forall s | s in free :: heap'[s].pageId == heap[s].pageId && heap'[s].numPages == heap[s].numPages
    ensures NonAdjacent(heap', free)
  {
  }

  lemma NonAdjacentSubset(heap: map<SpanRef, Span>, free: set<SpanRef>, fewer: set<SpanRef>)
    requires free <= heap.Keys && NonAdjacent(heap, free) && fewer <= free
    ensures NonAdjacent(heap, fewer)
  {
  }

  lemma MergePaintsOwnPages(heap: map<SpanRef, Span>, spans: set<SpanRef>, owner: map<nat, SpanRef>,
                            gone: SpanRef, into: SpanRef)
    requires Owns(heap, spans, owner) && gone in spans
    ensures Repaint(owner, PagesOf(heap[gone]), into).Keys == owner.Keys
  {
  }

  lemma AbsorbKeepsValid(st: PageState, into: SpanRef, gone: SpanRef)
    requires ValidExcept(st, {into}) && gone in st.free
    requires Touching(st.heap[into], st.heap[gone])
    ensures ValidExcept(Absorb(st, into, gone), {into})
  {
    hide Owns, Listed, NonAdjacent;
    NotDeleted(st, {into});
    var st' := Absorb(st, into, gone);
    var all := st.free + st.outstanding + {into};
    assert st'.free + st'.outstanding + {into} == all - {gone};
    OwnsAfterMerge(st.heap, all, st.owner, into, gone);
    OwnsAfterDrop(st.heap, st.free, st.pageMap, gone);
    OwnsSameSpans(st.heap, st'.heap, st'.free, st'.pageMap);
    ListedAfterDrop(st.heap, st.free, st.lists, gone);
    ListedSameSpans(st.heap, st'.heap, st'.free, st'.lists);
    NonAdjacentSubset(st.heap, st.free, st'.free);
    NonAdjacentSameSpans(st.heap, st'.heap, st'.free);
    MergePaintsOwnPages(st.heap, all, st.owner, gone, into);
  }

  /** The free span found through the page map next to `s` really touches `s`. */
  lemma NeighbourTouches(st: PageState, s: SpanRef, p: nat)
    requires ValidExcept(st, {s}) && p in st.pageMap
    requires p + 1 == st.heap[s].pageId || p == st.heap[s].End()
    ensures st.pageMap[p] in st.free && st.pageMap[p] != s
    ensures p + 1 == st.heap[s].pageId ==> st.heap[st.pageMap[p]].End() == st.heap[s].pageId
    ensures p == st.heap[s].End() ==> st.heap[st.pageMap[p]].pageId == p
  {
    hide Owns, Listed, NonAdjacent;
    NotDeleted(st, {s});
    var f, all := st.pageMap[p], st.free + st.outstanding + {s};
    Holder(st.heap, st.free, st.pageMap, p);
    OneHolder(st.heap, all, st.owner, s, f, st.heap[s].pageId);
    OneHolder(st.heap, all, st.owner, s, f, st.heap[s].End() - 1);
  }

  lemma Holder(heap: map<SpanRef, Span>, spans: set<SpanRef>, owner: map<nat, SpanRef>, p: nat)
    requires Owns(heap, spans, owner) && p in owner
    ensures owner[p] in spans && owner[p] in heap && heap[owner[p]].Has(p)
  {
  }

  /** A page of one span is a page of no other. */
  lemma OneHolder(heap: map<SpanRef, Span>, spans: set<SpanRef>, owner: map<nat, SpanRef>, s: SpanRef, t: SpanRef, p: int)
    requires Owns(heap, spans, owner) && s in spans && t in spans && s != t
    ensures s in heap && t in heap && heap[s].numPages > 0
    ensures p >= 0 && heap[s].Has(p) ==> !heap[t].Has(p)
  {
    if p >= 0 && heap[s].Has(p) {
      assert owner[p] == s;
    }
  }

  /** When the page map has no entry beside `s`, no free span touches that side. */
  lemma NoNeighbour(st: PageState, s: SpanRef)
    requires ValidExcept(st, {s})
    ensures st.heap[s].pageId > 0
    ensures st.heap[s].pageId - 1 !in st.pageMap ==>
              forall f | f in st.free :: st.heap[f].End() != st.heap[s].pageId
    ensures st.heap[s].End() !in st.pageMap ==>
              forall f | f in st.free :: st.heap[f].pageId != st.heap[s].End()
  {
    assert st.heap[s].Has(st.heap[s].pageId);
    forall f | f in st.free
      ensures st.heap[f].End() - 1 in st.pageMap && st.heap[f].pageId in st.pageMap
    {
      assert st.heap[f].Has(st.heap[f].End() - 1) && st.heap[f].Has(st.heap[f].pageId);
    }
  }

  /** `st` is `st0` after some turns of the coalescing loops on `s`. */
  ghost predicate Merging(st0: PageState, st: PageState, s: SpanRef) {
    && ValidExcept(st, {s})
    && s in st0.heap
    && st.free <= st0.free
    && st.outstanding == st0.outstanding
    && st.mapped == st0.mapped
    && st.pageMap.Keys + PagesOf(st.heap[s]) == st0.pageMap.Keys + PagesOf(st0.heap[s])
    && (forall t | t in st.outstanding :: t in st0.heap && st.heap[t] == st0.heap[t])
  }

  lemma OwnPagesIndexed(heap: map<SpanRef, Span>, spans: set<SpanRef>, owner: map<nat, SpanRef>, s: SpanRef)
    requires Owns(heap, spans, owner) && s in spans
    ensures PagesOf(heap[s]) <= owner.Keys
  {
  }

  lemma AbsorbKeepsPages(st: PageState, s: SpanRef, gone: SpanRef)
    requires Owns(st.heap, st.free, st.pageMap) && gone in st.free
    requires s in st.heap && s != gone && gone in st.heap && Touching(st.heap[s], st.heap[gone])
    ensures var st' := Absorb(st, s, gone);
            st'.pageMap.Keys + PagesOf(st'.heap[s]) == st.pageMap.Keys + PagesOf(st.heap[s])
  {
    hide Owns;
    var st' := Absorb(st, s, gone);
    OwnPagesIndexed(st.heap, st.free, st.pageMap, gone);
    assert PagesOf(Joined(st.heap[s], st.heap[gone])) == PagesOf(st.heap[s]) + PagesOf(st.heap[gone]);
    assert st'.pageMap.Keys == st.pageMap.Keys - PagesOf(st.heap[gone]);
  }

  lemma MergingAfterAbsorb(st0: PageState, st: PageState, s: SpanRef, gone: SpanRef)
    requires Merging(st0, st, s) && gone in st.free && Touching(st.heap[s], st.heap[gone])
    ensures Merging(st0, Absorb(st, s, gone), s)
    ensures Absorb(st, s, gone).free == st.free - {gone}
  {
    hide Owns, Listed, NonAdjacent;
    NotDeleted(st, {s});
    AbsorbKeepsValid(st, s, gone);
    NotDeleted(Absorb(st, s, gone), {s});
    AbsorbKeepsPages(st, s, gone);
  }

  lemma MergingBasics(st0: PageState, st: PageState, s: SpanRef)
    requires Merging(st0, st, s)
    ensures ValidExcept(st, {s}) && st.free + {s} <= st.heap.Keys
    ensures s !in st.free && st.heap[s].pageId > 0
  {
    assert st.heap[s].Has(st.heap[s].pageId);
  }

  lemma MergedKeeps(st0: PageState, st: PageState, s: SpanRef)
    requires Merging(st0, st, s)
    ensures st.outstanding == st0.outstanding && st.free <= st0.free && s in st.heap && s in st0.heap
    ensures st.pageMap.Keys + PagesOf(st.heap[s]) == st0.pageMap.Keys + PagesOf(st0.heap[s])
    ensures forall t | t in st.outstanding :: t in st0.heap && t in st.heap && st.heap[t] == st0.heap[t]
    ensures ValidExcept(st, {s})
  {
  }

  lemma MergingStart(st: PageState, s: SpanRef)
    requires ValidExcept(st, {s})
    ensures Merging(st, st, s)
  {
  }

  // ---- Putting a coalesced span on its list ----

  function PutBack(st: PageState, s: SpanRef): PageState
    requires s in st.heap
  {
    st.(pageMap := Repaint(st.pageMap, PagesOf(st.heap[s]), s),
        lists := Pushed(st.lists, st.heap[s].numPages, s),
        free := st.free + {s})
  }

  lemma OwnsAfterAdd(heap: map<SpanRef, Span>, spans: set<SpanRef>, owner: map<nat, SpanRef>, s: SpanRef)
    requires Owns(heap, spans, owner) && s in heap && s !in spans && heap[s].numPages > 0
    requires owner.Keys !! PagesOf(heap[s])
    ensures Owns(heap, spans + {s}, Repaint(owner, PagesOf(heap[s]), s))
  {
  }

  lemma ListedAfterPush(heap: map<SpanRef, Span>, free: set<SpanRef>, lists: map<nat, seq<SpanRef>>, s: SpanRef)
    requires free <= heap.Keys && Listed(heap, free, lists) && s in heap && s !in free
    ensures Listed(heap, free + {s}, Pushed(lists, heap[s].numPages, s))
  {
    var n := heap[s].numPages;
    var list := ListOf(lists, n);
    assert s !in list && NoDup([s] + list);
    assert forall t | t in list :: t in [s] + list;
  }

  /** Pages of spans that are not free are not in the page map. */
  lemma FreePagesOnly(st: PageState, pending: set<SpanRef>, s: SpanRef)
    requires ValidExcept(st, pending) && s in st.outstanding + pending
    ensures st.pageMap.Keys !! PagesOf(st.heap[s])
  {
    forall p | p in st.pageMap
      ensures !st.heap[s].Has(p)
    {
      assert st.heap[st.pageMap[p]].Has(p);
      assert st.owner[p] == st.pageMap[p];
    }
  }

  lemma PutBackKeepsValid(st: PageState, s: SpanRef)
    requires ValidExcept(st, {s})
    requires forall f | f in st.free :: !Touching(st.heap[f], st.heap[s])
    ensures Valid(PutBack(st, s))
  {
    var st' := PutBack(st, s);
    FreePagesOnly(st, {s}, s);
    assert NonAdjacent(st'.heap, st'.free);
    assert st'.free + st'.outstanding + {} == st.free + st.outstanding + {s};
    OwnsAfterAdd(st.heap, st.free, st.pageMap, s);
    ListedAfterPush(st.heap, st.free, st.lists, s);
    hide Owns, Listed, NonAdjacent;
  }

  // ---- Handing out spans ----

  /** Step 1 of `allocate_span`: a free span of exactly the wanted size leaves its list. */
  function TakeWhole(st: PageState, s: SpanRef): PageState
    requires s in st.heap
  {
    var n := st.heap[s].numPages;
    st.(pageMap := st.pageMap - PagesOf(st.heap[s]),
        lists := Unlinked(st.lists, n, s),
        free := st.free - {s},
        outstanding := st.outstanding + {s})
  }

  /** Step 2: the front `n` pages of a larger span are handed out, the rest becomes the new span `q`. */
  function TakeSplit(st: PageState, s: SpanRef, n: nat, q: SpanRef): PageState
    requires s in st.heap && n < st.heap[s].numPages
  {
    var big := st.heap[s];
    var rest := FreshSpan(big.pageId + n, big.numPages - n);
    st.(heap := st.heap[q := rest][s := big.(numPages := n)],
        pageMap := Repaint(st.pageMap, PagesOf(rest), q) - PageRange(big.pageId, n),
        lists := Pushed(Unlinked(st.lists, big.numPages, s), rest.numPages, q),
        free := st.free - {s} + {q},
        outstanding := st.outstanding + {s},
        owner := Repaint(st.owner, PagesOf(rest), q))
  }

  /** Step 3: freshly mapped pages become the span `q`. */
  function TakeNew(st: PageState, start: nat, n: nat, q: SpanRef): PageState {
    st.(heap := st.heap[q := FreshSpan(start, n)],
        mapped := st.mapped + PageRange(start, n),
        outstanding := st.outstanding + {q},
        owner := Repaint(st.owner, PageRange(start, n), q))
  }

  lemma TakeWholeKeepsValid(st: PageState, s: SpanRef)
    requires Valid(st) && s in st.free
    ensures Valid(TakeWhole(st, s))
  {
    hide Owns, Listed, NonAdjacent;
    NotDeleted(st, {});
    var st' := TakeWhole(st, s);
    assert st'.free + st'.outstanding + {} == st.free + st.outstanding + {};
    NonAdjacentSubset(st.heap, st.free, st'.free);
    OwnsAfterDrop(st.heap, st.free, st.pageMap, s);
    ListedAfterDrop(st.heap, st.free, st.lists, s);
  }

  lemma OwnsAfterSplit(heap: map<SpanRef, Span>, spans: set<SpanRef>, owner: map<nat, SpanRef>,
                       s: SpanRef, n: nat, q: SpanRef)
    requires Owns(heap, spans, owner) && s in spans && q !in heap && 0 < n < heap[s].numPages
    ensures var rest := FreshSpan(heap[s].pageId + n, heap[s].numPages - n);
            Owns(heap[q := rest][s := heap[s].(numPages := n)], spans + {q}, Repaint(owner, PagesOf(rest), q))
  {
    hide Repaint, PagesOf;
    var rest := FreshSpan(heap[s].pageId + n, heap[s].numPages - n);
    var heap' := heap[q := rest][s := heap[s].(numPages := n)];
    var owner' := Repaint(owner, PagesOf(rest), q);
    forall p | p in owner'
      ensures owner'[p] in spans + {q} && heap'[owner'[p]].Has(p)
    {
      OwnerAfterSplit(heap, spans, owner, s, n, q, p);
    }
    forall t, p: nat | t in spans + {q} && heap'[t].Has(p)
      ensures p in owner' && owner'[p] == t
    {
      PageAfterSplit(heap, spans, owner, s, n, q, t, p);
    }
  }

  lemma OwnerAfterSplit(heap: map<SpanRef, Span>, spans: set<SpanRef>, owner: map<nat, SpanRef>,
                        s: SpanRef, n: nat, q: SpanRef, p: nat)
    requires Owns(heap, spans, owner) && s in spans && q !in heap && 0 < n < heap[s].numPages
    requires p in Repaint(owner, PagesOf(FreshSpan(heap[s].pageId + n, heap[s].numPages - n)), q)
    ensures var rest := FreshSpan(heap[s].pageId + n, heap[s].numPages - n);
            var t := Repaint(owner, PagesOf(rest), q)[p];
            t in spans + {q} && heap[q := rest][s := heap[s].(numPages := n)][t].Has(p)
  {
    var rest := FreshSpan(heap[s].pageId + n, heap[s].numPages - n);
    if rest.Has(p) {
      assert heap[s].Has(p);
    } else {
      assert p in owner && heap[owner[p]].Has(p);
    }
  }

  lemma PageAfterSplit(heap: map<SpanRef, Span>, spans: set<SpanRef>, owner: map<nat, SpanRef>,
                       s: SpanRef, n: nat, q: SpanRef, t: SpanRef, p: nat)
    requires Owns(heap, spans, owner) && s in spans && q !in heap && 0 < n < heap[s].numPages && t in spans + {q}
    ensures var rest := FreshSpan(heap[s].pageId + n, heap[s].numPages - n);
            var owner' := Repaint(owner, PagesOf(rest), q);
            heap[q := rest][s := heap[s].(numPages := n)][t].Has(p) ==> p in owner' && owner'[p] == t
  {
    var rest := FreshSpan(heap[s].pageId + n, heap[s].numPages - n);
    if t != q && heap[q := rest][s := heap[s].(numPages := n)][t].Has(p) {
      assert heap[t].Has(p) && owner[p] == t;
      assert !rest.Has(p);
    }
  }

  lemma TakeNewOwns(st: PageState, start: nat, n: nat, q: SpanRef)
    requires Valid(st) && q !in st.heap && start > 0 && n > 0
    requires st.mapped !! PageRange(start, n)
    ensures var st' := TakeNew(st, start, n, q);
            Owns(st'.heap, st'.free + st'.outstanding + {}, st'.owner)
  {
    var st' := TakeNew(st, start, n, q);
    var all := st.free + st.outstanding + {};
    OwnsSameSpans(st.heap, st'.heap, all, st.owner);
    assert PagesOf(st'.heap[q]) == PageRange(start, n);
    assert st'.free + st'.outstanding + {} == all + {q};
    assert q !in all;
    hide Owns, Listed, NonAdjacent;
    OwnsAfterAdd(st'.heap, all, st.owner, q);
  }

  lemma TakeNewKeepsValid(st: PageState, start: nat, n: nat, q: SpanRef)
    requires Valid(st) && q !in st.heap && start > 0 && n > 0
    requires st.mapped !! PageRange(start, n)
    ensures Valid(TakeNew(st, start, n, q))
  {
    var st' := TakeNew(st, start, n, q);
    assert forall s | s in st.free + st.outstanding :: s in st.heap;
    hide Owns, Listed, NonAdjacent;
    TakeNewOwns(st, start, n, q);
    OwnsSameSpans(st.heap, st'.heap, st.free, st.pageMap);
    ListedSameSpans(st.heap, st'.heap, st.free, st.lists);
    NonAdjacentSameSpans(st.heap, st'.heap, st.free);
    assert st'.owner.Keys == st'.mapped;
  }

  lemma TakeSplitOwns(st: PageState, s: SpanRef, n: nat, q: SpanRef)
    requires Valid(st) && s in st.free && q !in st.heap && 0 < n < st.heap[s].numPages
    ensures var st' := TakeSplit(st, s, n, q);
            Owns(st'.heap, st'.free + st'.outstanding + {}, st'.owner)
  {
    hide Owns, Listed, NonAdjacent;
    NotDeleted(st, {});
    var st' := TakeSplit(st, s, n, q);
    OwnsAfterSplit(st.heap, st.free + st.outstanding + {}, st.owner, s, n, q);
    assert st'.free + st'.outstanding + {} == st.free + st.outstanding + {} + {q};
  }

  lemma TakeSplitIndex(st: PageState, s: SpanRef, n: nat, q: SpanRef)
    requires Valid(st) && s in st.free && q !in st.heap && 0 < n < st.heap[s].numPages
    ensures var st' := TakeSplit(st, s, n, q);
            Owns(st'.heap, st'.free, st'.pageMap)
  {
    hide Owns, Listed, NonAdjacent;
    NotDeleted(st, {});
    var st' := TakeSplit(st, s, n, q);
    OwnsAfterSplit(st.heap, st.free, st.pageMap, s, n, q);
    OwnsAfterDrop(st'.heap, st.free + {q}, Repaint(st.pageMap, PagesOf(st'.heap[q]), q), s);
    assert st'.free == st.free + {q} - {s};
  }

  lemma TakeSplitLists(st: PageState, s: SpanRef, n: nat, q: SpanRef)
    requires Valid(st) && s in st.free && q !in st.heap && 0 < n < st.heap[s].numPages
    ensures var st' := TakeSplit(st, s, n, q);
            st'.free <= st'.heap.Keys && Listed(st'.heap, st'.free, st'.lists)
  {
    var st' := TakeSplit(st, s, n, q);
    var big := st.heap[s].numPages;
    var fewer := Unlinked(st.lists, big, s);
    hide Listed, NonAdjacent;
    ListedAfterDrop(st.heap, st.free, st.lists, s);
    ListedSameSpans(st.heap, st'.heap, st.free - {s}, fewer);
    ListedAfterPush(st'.heap, st.free - {s}, fewer, q);
  }

  lemma NonAdjacentAfterSplit(heap: map<SpanRef, Span>, free: set<SpanRef>, pageMap: map<nat, SpanRef>,
                              s: SpanRef, n: nat, q: SpanRef)
    requires Owns(heap, free, pageMap) && NonAdjacent(heap, free)
    requires s in free && q !in heap && 0 < n < heap[s].numPages
    ensures var rest := FreshSpan(heap[s].pageId + n, heap[s].numPages - n);
            NonAdjacent(heap[q := rest][s := heap[s].(numPages := n)], free - {s} + {q})
  {
    forall f | f in free && f != s
      ensures heap[f].End() != heap[s].pageId + n
    {
      var p := heap[s].pageId + n - 1;
      assert heap[s].Has(p) && pageMap[p] == s;
      assert !heap[f].Has(p);
    }
  }

  lemma SplitPaintsOwnPages(heap: map<SpanRef, Span>, spans: set<SpanRef>, owner: map<nat, SpanRef>,
                            s: SpanRef, n: nat, q: SpanRef)
    requires Owns(heap, spans, owner) && s in spans && n < heap[s].numPages
    ensures var rest := FreshSpan(heap[s].pageId + n, heap[s].numPages - n);
            Repaint(owner, PagesOf(rest), q).Keys == owner.Keys
  {
    var rest := FreshSpan(heap[s].pageId + n, heap[s].numPages - n);
    assert forall p: nat :: rest.Has(p) ==> heap[s].Has(p);
  }

  lemma TakeSplitKeepsValid(st: PageState, s: SpanRef, n: nat, q: SpanRef)
    requires Valid(st) && s in st.free && q !in st.heap && 0 < n < st.heap[s].numPages
    ensures Valid(TakeSplit(st, s, n, q))
  {
    hide Owns, Listed, NonAdjacent;
    NotDeleted(st, {});
    var st' := TakeSplit(st, s, n, q);
    NonAdjacentAfterSplit(st.heap, st.free, st.pageMap, s, n, q);
    SplitPaintsOwnPages(st.heap, st.free + st.outstanding + {}, st.owner, s, n, q);
    TakeSplitOwns(st, s, n, q);
    TakeSplitIndex(st, s, n, q);
    TakeSplitLists(st, s, n, q);
  }

  /** The owner of a span may use its other fields as it likes. */
  lemma ExtentsDecide(st: PageState, s: SpanRef, span: Span)
    requires Valid(st) && s in st.heap
    requires span.pageId == st.heap[s].pageId && span.numPages == st.heap[s].numPages
    ensures Valid(st.(heap := st.heap[s := span]))
  {
    hide Owns, Listed, NonAdjacent;
    NotDeleted(st, {});
    var heap' := st.heap[s := span];
    OwnsSameSpans(st.heap, heap', st.free + st.outstanding + {}, st.owner);
    OwnsSameSpans(st.heap, heap', st.free, st.pageMap);
    ListedSameSpans(st.heap, heap', st.free, st.lists);
    NonAdjacentSameSpans(st.heap, heap', st.free);
  }

  // ---- What the invariant means ----

  /** Two spans, free or handed out, never share a page, and no mapped page is lost. */
  lemma MappedPagesPartitioned(st: PageState, p: nat)
    requires Valid(st)
    ensures st.free + st.outstanding <= st.heap.Keys
    ensures p in st.mapped <==> exists s :: s in st.free + st.outstanding && st.heap[s].Has(p)
    ensures forall s, t | s in st.free + st.outstanding && t in st.free + st.outstanding &&
                          st.heap[s].Has(p) && st.heap[t].Has(p) :: s == t
    ensures p in st.pageMap <==> exists s :: s in st.free && st.heap[s].Has(p)
  {
    assert st.free + st.outstanding + {} == st.free + st.outstanding;
    if p in st.mapped {
      assert st.heap[st.owner[p]].Has(p);
    }
    if p in st.pageMap {
      assert st.heap[st.pageMap[p]].Has(p);
    }
  }

  ghost function TotalPages(heap: map<SpanRef, Span>, spans: set<SpanRef>): nat
    requires spans <= heap.Keys
  {
    if spans == {} then 0
    else var s :| s in spans; heap[s].numPages + TotalPages(heap, spans - {s})
  }

  lemma {:induction false} RangeSize(start: nat, n: nat)
    ensures |PageRange(start, n)| == n
  {
    if n > 0 {
      RangeSize(start, n - 1);
    }
  }

  lemma {:induction false} TotalIsOwned(heap: map<SpanRef, Span>, spans: set<SpanRef>, owner: map<nat, SpanRef>)
    requires Owns(heap, spans, owner)
    ensures TotalPages(heap, spans) == |owner.Keys|
  {
    if spans == {} {
      assert owner.Keys == {};
    } else {
      var s :| s in spans && TotalPages(heap, spans) == heap[s].numPages + TotalPages(heap, spans - {s});
      OwnsAfterDrop(heap, spans, owner, s);
      OwnPagesIndexed(heap, spans, owner, s);
      TotalIsOwned(heap, spans - {s}, owner - PagesOf(heap[s]));
      RangeSize(heap[s].pageId, heap[s].numPages);
      assert (owner - PagesOf(heap[s])).Keys == owner.Keys - PagesOf(heap[s]);
    }
  }

  /** Free pages and handed-out pages add up to all mapped pages. */
  lemma PagesConserved(st: PageState)
    requires Valid(st)
    ensures st.free <= st.heap.Keys && st.outstanding <= st.heap.Keys
    ensures TotalPages(st.heap, st.free) + TotalPages(st.heap, st.outstanding) == |st.mapped|
  {
    var handedOut := st.owner - st.pageMap.Keys;
    FreeWithinMapped(st);
    OutstandingOwns(st);
    TotalIsOwned(st.heap, st.free, st.pageMap);
    TotalIsOwned(st.heap, st.outstanding, handedOut);
    assert handedOut.Keys == st.mapped - st.pageMap.Keys;
  }

  lemma OutstandingOwns(st: PageState)
    requires Valid(st)
    ensures Owns(st.heap, st.outstanding, st.owner - st.pageMap.Keys)
  {
    hide NonAdjacent, Listed;
    forall s, p: nat | s in st.outstanding && st.heap[s].Has(p)
      ensures p !in st.pageMap
    {
      FreePagesOnly(st, {}, s);
    }
    forall p | p in st.owner && p !in st.pageMap
      ensures st.owner[p] in st.outstanding
    {
      assert st.heap[st.owner[p]].Has(p);
    }
  }

  /**
   * Coalescing is canonical: the free spans are determined by which pages are
   * free, whatever the order in which they were freed.
   */
  lemma FreePagesDetermineSpans(st: PageState, st': PageState, f: SpanRef) returns (f': SpanRef)
    requires Valid(st) && Valid(st') && st.pageMap.Keys == st'.pageMap.Keys && f in st.free
    ensures f in st.heap && f' in st'.free && f' in st'.heap
    ensures st'.heap[f'].pageId == st.heap[f].pageId && st'.heap[f'].numPages == st.heap[f].numPages
  {
    hide Owns, Listed, NonAdjacent;
    NotDeleted(st, {});
    NotDeleted(st', {});
    f' := SameExtent(st.heap, st.free, st.pageMap, st'.heap, st'.free, st'.pageMap, f);
  }

  lemma SameExtent(heap: map<SpanRef, Span>, free: set<SpanRef>, pageMap: map<nat, SpanRef>,
                   heap': map<SpanRef, Span>, free': set<SpanRef>, pageMap': map<nat, SpanRef>,
                   f: SpanRef) returns (f': SpanRef)
    requires Owns(heap, free, pageMap) && NonAdjacent(heap, free)
    requires Owns(heap', free', pageMap') && NonAdjacent(heap', free')
    requires pageMap.Keys == pageMap'.Keys && f in free
    ensures f' in free'
    ensures heap'[f'].pageId == heap[f].pageId && heap'[f'].numPages == heap[f].numPages
  {
    hide NonAdjacent;
    var start, end := heap[f].pageId, heap[f].End();
    assert heap[f].Has(start) && heap[f].Has(end - 1);
    f' := pageMap'[start];
    FreeSpanIsMaximal(heap, free, pageMap, f);
    FreeSpanIsMaximal(heap', free', pageMap', f');
    assert heap'[f'].Has(start) && !heap'[f'].Has(end);
    assert start > 0 ==> !heap'[f'].Has(start - 1);
    assert !heap[f].Has(heap'[f'].End());
  }

  /** A free span cannot be extended: the pages on both its sides are not free. */
  lemma FreeSpanIsMaximal(heap: map<SpanRef, Span>, free: set<SpanRef>, pageMap: map<nat, SpanRef>, f: SpanRef)
    requires Owns(heap, free, pageMap) && NonAdjacent(heap, free) && f in free
    ensures heap[f].End() !in pageMap
    ensures heap[f].pageId > 0 ==> heap[f].pageId - 1 !in pageMap
  {
    var start, end := heap[f].pageId, heap[f].End();
    assert heap[f].Has(start) && heap[f].Has(end - 1);
    assert pageMap[start] == f && pageMap[end - 1] == f;
    forall g | g in free
      ensures !heap[g].Has(end) && (start > 0 ==> !heap[g].Has(start - 1))
    {
      assert g != f ==> !heap[g].Has(end - 1) && !heap[g].Has(start);
    }
  }

  // ---- What an allocation is ----

  /** `f` heads the list of the smallest free spans with at least `n` pages. */
  ghost predicate BestFit(st: PageState, n: nat, f: SpanRef) {
    && f in st.free && f in st.heap && n <= st.heap[f].numPages
    && st.heap[f].numPages in st.lists
    && f in st.lists[st.heap[f].numPages] && f == st.lists[st.heap[f].numPages][0]
    && (forall t | t in st.free && t in st.heap && n <= st.heap[t].numPages ::
          st.heap[f].numPages <= st.heap[t].numPages)
  }

  ghost predicate NoFit(st: PageState, n: nat) {
    forall f | f in st.free && f in st.heap :: st.heap[f].numPages < n
  }

  /** A successful `allocate_span`: best fit, else a split, else new memory; failure only when `mmap` fails. */
  ghost predicate Allocation(st: PageState, st': PageState, n: nat, r: Option<SpanRef>) {
    match r
    case None => NoFit(st, n) && st' == st
    case Some(s) =>
      || (BestFit(st, n, s) && st.heap[s].numPages == n && st' == TakeWhole(st, s))
      || (BestFit(st, n, s) && n < st.heap[s].numPages &&
          exists q :: q !in st.heap && st' == TakeSplit(st, s, n, q))
      || (NoFit(st, n) && s !in st.heap &&
          exists start :: start > 0 && st.mapped !! PageRange(start, n) && st' == TakeNew(st, start, n, s))
  }

  /**
   * What an allocation means to the caller: a span of the wanted size, not
   * handed out before, on pages that were free or never mapped; no other
   * outstanding span changes, and exactly the span's pages stop being free.
   */
  ghost predicate HandedOut(st: PageState, st': PageState, n: nat, s: SpanRef) {
    && Valid(st')
    && s !in st.outstanding && st'.outstanding == st.outstanding + {s}
    && s in st'.heap && st'.heap[s].numPages == n
    && st'.pageMap.Keys == st.pageMap.Keys - PagesOf(st'.heap[s])
    && st'.mapped == st.mapped + PagesOf(st'.heap[s])
    && (forall t | t in st.outstanding :: t in st.heap && t in st'.heap && st'.heap[t] == st.heap[t])
  }

  lemma WholeHandsOut(st: PageState, s: SpanRef)
    requires Valid(st) && s in st.free && s in st.heap
    ensures HandedOut(st, TakeWhole(st, s), st.heap[s].numPages, s)
  {
    hide Owns, Listed, NonAdjacent;
    NotDeleted(st, {});
    TakeWholeKeepsValid(st, s);
    FreePagesMapped(st, s);
  }

  lemma SplitHandsOut(st: PageState, s: SpanRef, n: nat, q: SpanRef)
    requires Valid(st) && s in st.free && s in st.heap && q !in st.heap && 0 < n < st.heap[s].numPages
    ensures HandedOut(st, TakeSplit(st, s, n, q), n, s)
  {
    hide Owns, Listed, NonAdjacent;
    NotDeleted(st, {});
    TakeSplitKeepsValid(st, s, n, q);
    FreePagesMapped(st, s);
    SplitPaintsOwnPages(st.heap, st.free, st.pageMap, s, n, q);
  }

  lemma NewHandsOut(st: PageState, start: nat, n: nat, q: SpanRef)
    requires Valid(st) && q !in st.heap && start > 0 && n > 0
    requires st.mapped !! PageRange(start, n)
    ensures HandedOut(st, TakeNew(st, start, n, q), n, q)
  {
    hide Owns, Listed, NonAdjacent;
    NotDeleted(st, {});
    TakeNewKeepsValid(st, start, n, q);
    FreeWithinMapped(st);
    assert PagesOf(FreshSpan(start, n)) == PageRange(start, n);
  }

  lemma AllocationHandsOut(st: PageState, st': PageState, n: nat, s: SpanRef)
    requires Valid(st) && n > 0 && Allocation(st, st', n, Some(s))
    ensures HandedOut(st, st', n, s)
    ensures st'.mapped != st.mapped ==> NoFit(st, n)
  {
    hide Owns, Listed, NonAdjacent, HandedOut, ValidExcept;
    if BestFit(st, n, s) && st.heap[s].numPages == n && st' == TakeWhole(st, s) {
      WholeHandsOut(st, s);
    } else if BestFit(st, n, s) && n < st.heap[s].numPages &&
              exists q :: q !in st.heap && st' == TakeSplit(st, s, n, q) {
      var q :| q !in st.heap && st' == TakeSplit(st, s, n, q);
      SplitHandsOut(st, s, n, q);
    } else {
      var start :| start > 0 && st.mapped !! PageRange(start, n) && st' == TakeNew(st, start, n, s);
      NewHandsOut(st, start, n, s);
    }
  }

  /** The front of the first non-empty list from `n` upwards is a best fit. */
  lemma FrontIsBestFit(st: PageState, n: nat, k: nat)
    requires Valid(st) && n <= k && k in st.lists && st.lists[k] != []
    requires forall j | j in st.lists && n <= j < k :: st.lists[j] == []
    ensures BestFit(st, n, st.lists[k][0]) && st.heap[st.lists[k][0]].numPages == k
  {
  }

  lemma BestFitIsFree(st: PageState, n: nat, f: SpanRef)
    requires BestFit(st, n, f)
    ensures f in st.free && f in st.heap && n <= st.heap[f].numPages
  {
  }

  lemma HandedOutIsValid(st: PageState, st': PageState, n: nat, s: SpanRef)
    requires HandedOut(st, st', n, s)
    ensures Valid(st')
  {
  }

  lemma AllEmptyIsNoFit(st: PageState, n: nat)
    requires Valid(st)
    requires forall j | j in st.lists && n <= j :: st.lists[j] == []
    ensures NoFit(st, n)
  {
  }

  lemma FreePagesMapped(st: PageState, s: SpanRef)
    requires Valid(st) && s in st.free
    ensures s in st.heap && PagesOf(st.heap[s]) <= st.mapped
  {
    OwnPagesIndexed(st.heap, st.free + st.outstanding + {}, st.owner, s);
  }

  lemma FreeWithinMapped(st: PageState)
    requires Valid(st)
    ensures st.pageMap.Keys <= st.mapped
  {
    forall p | p in st.pageMap
      ensures p in st.mapped
    {
      assert st.heap[st.pageMap[p]].Has(p);
    }
  }

  // ---- The cache itself ----

  /** The operating system: hands out page ranges that were never mapped before, or fails. */
  class Os {
    var mapped: set<nat>
    /** How often it has refused. */
    ghost var refusals: nat

    constructor ()
      ensures mapped == {} && refusals == 0
    {
      mapped, refusals := {}, 0;
    }

    method Mmap(n: nat) returns (r: Option<nat>)
      requires n > 0
      modifies this
      ensures r.None? ==> mapped == old(mapped) && refusals == old(refusals) + 1
      ensures r.Some? ==> refusals == old(refusals)
      ensures r.Some? ==> r.value > 0 && old(mapped) !! PageRange(r.value, n)
      ensures r.Some? ==> mapped == old(mapped) + PageRange(r.value, n)
    {
      if * {
        refusals := refusals + 1;
        return None;
      }
      var bound := UpperBound(mapped);
      assert mapped !! PageRange(bound + 1, n);
      var p: nat :| p > 0 && mapped !! PageRange(p, n);
      mapped := mapped + PageRange(p, n);
      return Some(p);
    }
  }

  method UpperBound(s: set<nat>) returns (b: nat)
    ensures forall x | x in s :: x <= b
  {
    b := 0;
    var rest := s;
    while rest != {}
      invariant rest <= s
      invariant forall x | x in s && x !in rest :: x <= b
    {
      var x :| x in rest;
      b := if x > b then x else b;
      rest := rest - {x};
    }
  }

  /** `std::map::lower_bound` on the keys. */
  method LowerBound(keys: set<nat>, from: nat) returns (r: Option<nat>)
    ensures r.None? ==> forall k | k in keys :: k < from
    ensures r.Some? ==> r.value in keys && r.value >= from
    ensures r.Some? ==> forall k | k in keys && k >= from :: r.value <= k
  {
    r := None;
    var rest := keys;
    while rest != {}
      invariant rest <= keys
      invariant r.None? ==> forall k | k in keys && k !in rest :: k < from
      invariant r.Some? ==> r.value in keys && r.value >= from
      invariant r.Some? ==> forall k | k in keys && k !in rest && k >= from :: r.value <= k
    {
      var k :| k in rest;
      if k >= from && (r.None? || k < r.value) {
        r := Some(k);
      }
      rest := rest - {k};
    }
  }

  class PageCache {
    const os: Os
    var heap: map<SpanRef, Span>
    var pageSpanMap: map<nat, SpanRef>
    var freeSpanLists: map<nat, seq<SpanRef>>
    ghost var free: set<SpanRef>
    ghost var outstanding: set<SpanRef>
    ghost var owner: map<nat, SpanRef>

    ghost function State(): PageState
      reads this, os
    {
      PageState(heap, pageSpanMap, freeSpanLists, os.mapped, free, outstanding, owner)
    }

    constructor (os: Os)
      requires os.mapped == {}
      ensures this.os == os && State() == PageState(map[], map[], map[], {}, {}, {}, map[])
      ensures Valid(State())
    {
      this.os := os;
      heap, pageSpanMap, freeSpanLists := map[], map[], map[];
      free, outstanding, owner := {}, {}, map[];
    }

    /** A `new Span()`: some reference no live span has. */
    method NewRef() returns (q: SpanRef)
      ensures q !in heap
    {
      var b := UpperBound(heap.Keys);
      assert b + 1 !in heap;
      q :| q !in heap;
    }

    method ErasePages(start: nat, n: nat)
      modifies this`pageSpanMap
      ensures pageSpanMap == old(pageSpanMap) - PageRange(start, n)
    {
      var i := 0;
      while i < n
        invariant 0 <= i <= n
        invariant pageSpanMap == old(pageSpanMap) - PageRange(start, i)
      {
        pageSpanMap := pageSpanMap - {start + i};
        i := i + 1;
      }
    }

    method ClaimPages(s: SpanRef)
      requires s in heap
      modifies this`pageSpanMap
      ensures pageSpanMap == Repaint(old(pageSpanMap), PagesOf(heap[s]), s)
    {
      var start, n := heap[s].pageId, heap[s].numPages;
      var i := 0;
      while i < n
        invariant 0 <= i <= n
        invariant pageSpanMap == Repaint(old(pageSpanMap), PageRange(start, i), s)
      {
        pageSpanMap := pageSpanMap[start + i := s];
        i := i + 1;
      }
    }

    method Absorbed(into: SpanRef, gone: SpanRef)
      requires into in heap && gone in heap && into != gone
      requires Touching(heap[into], heap[gone])
      modifies this
      ensures State() == Absorb(old(State()), into, gone)
    {
      var other := heap[gone];
      ErasePages(other.pageId, other.numPages);
      freeSpanLists := Unlinked(freeSpanLists, other.numPages, gone);
      heap := heap[into := Joined(heap[into], other)] - {gone};
      free := free - {gone};
      owner := Repaint(owner, PagesOf(other), into);
    }

    /** The backward loop: a neighbour found through the page map always touches, so the source's other exit is dead. */
    method MergeBackward(s: SpanRef, ghost st0: PageState)
      requires Merging(st0, State(), s)
      modifies this
      ensures Merging(st0, State(), s) && s in heap && heap[s].pageId > 0
      ensures heap[s].pageId - 1 !in pageSpanMap
    {
      hide Owns, Listed, NonAdjacent, Merging, ValidExcept, Repaint, Without;
      MergingBasics(st0, State(), s);
      while heap[s].pageId - 1 in pageSpanMap
        invariant Merging(st0, State(), s) && s in heap && heap[s].pageId > 0
        decreases |free|
      {
        MergingBasics(st0, State(), s);
        var prev := pageSpanMap[heap[s].pageId - 1];
        NeighbourTouches(State(), s, heap[s].pageId - 1);
        assert heap[prev].End() == heap[s].pageId;
        MergingAfterAbsorb(st0, State(), s, prev);
        Absorbed(s, prev);
        MergingBasics(st0, State(), s);
      }
    }

    /** The forward loop; the start of the span stays where it is. */
    method MergeForward(s: SpanRef, ghost st0: PageState)
      requires Merging(st0, State(), s)
      modifies this
      ensures Merging(st0, State(), s) && s in old(heap) && s in heap && free <= old(free)
      ensures heap[s].pageId == old(heap)[s].pageId && heap[s].End() !in pageSpanMap
      ensures forall f | f in free :: f in heap && f in old(heap) && heap[f] == old(heap)[f]
    {
      hide Owns, Listed, NonAdjacent, Merging, ValidExcept, Repaint, Without;
      MergingBasics(st0, State(), s);
      while heap[s].End() in pageSpanMap
        invariant Merging(st0, State(), s) && s in heap && free <= old(free)
        invariant heap[s].pageId == old(heap)[s].pageId
        invariant forall f | f in free :: f in heap && f in old(heap) && heap[f] == old(heap)[f]
        decreases |free|
      {
        MergingBasics(st0, State(), s);
        var next := pageSpanMap[heap[s].End()];
        NeighbourTouches(State(), s, heap[s].End());
        assert heap[next].pageId == heap[s].End();
        MergingAfterAbsorb(st0, State(), s, next);
        Absorbed(s, next);
        MergingBasics(st0, State(), s);
      }
      MergingBasics(st0, State(), s);
    }

    /** Merges the pending span with every free span it touches. */
    method CoalesceSpan(s: SpanRef)
      requires ValidExcept(State(), {s})
      modifies this
      ensures Merging(old(State()), State(), s)
      ensures forall f | f in free :: f in heap && !Touching(heap[f], heap[s])
    {
      hide Owns, Listed, NonAdjacent, Merging, ValidExcept, Repaint, Without;
      ghost var st0 := State();
      MergingStart(st0, s);
      MergeBackward(s, st0);
      MergingBasics(st0, State(), s);
      NoNeighbour(State(), s);
      MergeForward(s, st0);
      MergingBasics(st0, State(), s);
      NoNeighbour(State(), s);
    }

    /** Takes a span back: its pages become free, and nothing else changes owner. */
    method FreeSpan(s: SpanRef)
      requires Valid(State()) && s in outstanding
      modifies this
      ensures Valid(State())
      ensures outstanding == old(outstanding) - {s} && free <= old(free) + {s}
      ensures pageSpanMap.Keys == old(pageSpanMap.Keys) + PagesOf(old(heap)[s])
      ensures forall t | t in outstanding :: t in old(heap) && heap[t] == old(heap)[t]
    {
      hide Owns, Listed, NonAdjacent, Merging;
      ghost var st0 := State();
      NotDeleted(st0, {});
      outstanding := outstanding - {s};
      assert st0.free + st0.outstanding + {} == free + outstanding + {s};
      assert ValidExcept(State(), {s});
      CoalesceSpan(s);
      MergedKeeps(st0.(outstanding := st0.outstanding - {s}), State(), s);
      PutBackKeepsValid(State(), s);
      freeSpanLists := Pushed(freeSpanLists, heap[s].numPages, s);
      free := free + {s};
      ClaimPages(s);
    }

    /** The list of the least size from `from` upwards that is not empty. */
    method FirstNonEmpty(from: nat) returns (r: Option<nat>)
      ensures r.None? ==> forall k | k in freeSpanLists && k >= from :: freeSpanLists[k] == []
      ensures r.Some? ==> r.value >= from && r.value in freeSpanLists && freeSpanLists[r.value] != []
      ensures r.Some? ==> forall k | k in freeSpanLists && from <= k < r.value :: freeSpanLists[k] == []
    {
      r := LowerBound(freeSpanLists.Keys, from);
      while r.Some? && freeSpanLists[r.value] == []
        invariant r.Some? ==> r.value >= from && r.value in freeSpanLists
        invariant r.Some? ==> forall k | k in freeSpanLists && from <= k < r.value :: freeSpanLists[k] == []
        invariant r.None? ==> forall k | k in freeSpanLists && k >= from :: freeSpanLists[k] == []
        decreases if r.Some? then set k | k in freeSpanLists && k >= r.value else {}
      {
        var before := r.value;
        r := LowerBound(freeSpanLists.Keys, before + 1);
        assert before in set k | k in freeSpanLists && k >= before;
      }
    }

    method TookWhole(s: SpanRef)
      requires s in heap
      modifies this
      ensures State() == TakeWhole(old(State()), s)
    {
      freeSpanLists := Unlinked(freeSpanLists, heap[s].numPages, s);
      ErasePages(heap[s].pageId, heap[s].numPages);
      free, outstanding := free - {s}, outstanding + {s};
    }

    method TookSplit(s: SpanRef, n: nat, q: SpanRef)
      requires s in heap && q !in heap && n < heap[s].numPages
      modifies this
      ensures State() == TakeSplit(old(State()), s, n, q)
    {
      hide Repaint, Without, PageRange;
      var big := heap[s];
      freeSpanLists := Unlinked(freeSpanLists, big.numPages, s);
      heap := heap[q := FreshSpan(big.pageId + n, big.numPages - n)];
      ClaimPages(q);
      freeSpanLists := Pushed(freeSpanLists, big.numPages - n, q);
      heap := heap[s := big.(numPages := n)];
      ErasePages(big.pageId, n);
      free, outstanding := free - {s} + {q}, outstanding + {s};
      owner := Repaint(owner, PagesOf(heap[q]), q);
    }

    /**
     * Hands out a span of exactly `numPages` pages: a best fit among the free
     * spans, and new memory only when no free span is large enough.
     */
    method AllocateSpan(numPages: nat) returns (r: Option<SpanRef>)
      requires Valid(State()) && numPages > 0
      modifies this, os
      ensures Valid(State())
      ensures Allocation(old(State()), State(), numPages, r)
      ensures os.refusals == old(os.refusals) + if r.None? then 1 else 0
    {
      hide ValidExcept, HandedOut, BestFit, NoFit;
      ghost var st0 := State();
      if numPages in freeSpanLists && freeSpanLists[numPages] != [] {
        var s := freeSpanLists[numPages][0];
        FrontIsBestFit(st0, numPages, numPages);
        BestFitIsFree(st0, numPages, s);
        WholeHandsOut(st0, s);
        HandedOutIsValid(st0, TakeWhole(st0, s), numPages, s);
        TookWhole(s);
        return Some(s);
      }
      var k := FirstNonEmpty(numPages + 1);
      if k.Some? {
        var s := freeSpanLists[k.value][0];
        FrontIsBestFit(st0, numPages, k.value);
        BestFitIsFree(st0, numPages, s);
        var q := NewRef();
        SplitHandsOut(st0, s, numPages, q);
        HandedOutIsValid(st0, TakeSplit(st0, s, numPages, q), numPages, s);
        TookSplit(s, numPages, q);
        return Some(s);
      }
      AllEmptyIsNoFit(st0, numPages);
      r := MapSpan(numPages);
    }

    /** New pages from the operating system, when no free span is large enough. */
    method MapSpan(numPages: nat) returns (r: Option<SpanRef>)
      requires Valid(State()) && numPages > 0 && NoFit(State(), numPages)
      modifies this, os
      ensures Valid(State())
      ensures Allocation(old(State()), State(), numPages, r)
      ensures os.refusals == old(os.refusals) + if r.None? then 1 else 0
    {
      hide ValidExcept, HandedOut, BestFit, NoFit;
      ghost var st0 := State();
      var start := os.Mmap(numPages);
      if start.None? {
        return None;
      }
      var q := NewRef();
      NewHandsOut(st0, start.value, numPages, q);
      HandedOutIsValid(st0, TakeNew(st0, start.value, numPages, q), numPages, q);
      heap := heap[q := FreshSpan(start.value, numPages)];
      outstanding := outstanding + {q};
      owner := Repaint(owner, PageRange(start.value, numPages), q);
      return Some(q);
    }
  }

  datatype PageOp = AllocOp(numPages: nat) | FreeOp(s: SpanRef)

  /** Mapped pages stay mapped, and a span handed out joins the others. */
  lemma AllocationKeeps(st: PageState, st': PageState, n: nat, r: Option<SpanRef>)
    requires Valid(st) && n > 0 && Allocation(st, st', n, r)
    ensures st.mapped <= st'.mapped
    ensures st'.outstanding == if r.Some? then st.outstanding + {r.value} else st.outstanding
  {
    hide ValidExcept, Allocation;
    if r.Some? {
      AllocationHandsOut(st, st', n, r.value);
    } else {
      NothingHandedOut(st, st', n);
    }
  }

  lemma NothingHandedOut(st: PageState, st': PageState, n: nat)
    requires Allocation(st, st', n, None)
    ensures st' == st
  {
  }

  /**
   * Any run of allocations and of frees of what they handed out, whatever
   * `mmap` answers: the invariant holds at its end, and the pages mapped so far
   * are exactly those that are free or handed out.
   */
  method Run(cache: PageCache, ops: seq<PageOp>) returns (handed: set<SpanRef>, failed: nat)
    requires Valid(cache.State()) && cache.outstanding == {}
    modifies cache, cache.os
    ensures Valid(cache.State()) && cache.outstanding == handed
    ensures old(cache.os.mapped) <= cache.os.mapped && cache.os.refusals == old(cache.os.refusals) + failed
    ensures cache.free <= cache.heap.Keys && handed <= cache.heap.Keys
    ensures TotalPages(cache.heap, cache.free) + TotalPages(cache.heap, handed) == |cache.os.mapped|
  {
    hide ValidExcept, Allocation;
    handed, failed := {}, 0;
    var i := 0;
    while i < |ops|
      invariant 0 <= i <= |ops| && Valid(cache.State()) && cache.os.refusals == old(cache.os.refusals) + failed
      invariant cache.outstanding == handed && old(cache.os.mapped) <= cache.os.mapped
    {
      if ops[i].AllocOp? && ops[i].numPages > 0 {
        ghost var st := cache.State();
        var r := cache.AllocateSpan(ops[i].numPages);
        AllocationKeeps(st, cache.State(), ops[i].numPages, r);
        handed, failed := if r.Some? then handed + {r.value} else handed, if r.Some? then failed else failed + 1;
      } else if ops[i].FreeOp? && ops[i].s in handed {
        cache.FreeSpan(ops[i].s);
        handed := handed - {ops[i].s};
      }
      i := i + 1;
    }
    PagesConserved(cache.State());
  }
}
