/**
 * The middle level of the allocator, as values: spans owned by a size class,
 * carved into objects, and which objects are handed out.
 */
module CentralState {
  import opened Pages
  import opened Seqs
  import opened SizeClass

  // ---- Carving a span into objects ----

  /** Pages asked for by a class of `c`-byte objects: room for 256 of them. */
  function PagesFor(c: nat, pageSize: nat): nat
    requires pageSize > 0
  {
    var n := (c * 256 + pageSize - 1) / pageSize;
    if n < 1 then 1 else n
  }

  function Slot(base: nat, c: nat, k: nat): nat {
    base + k * c
  }

  /** The free list right after carving `n` objects: each was pushed in front of the one before. */
  function CarveList(base: nat, c: nat, n: nat): seq<nat> {
    if n == 0 then [] else [Slot(base, c, n - 1)] + CarveList(base, c, n - 1)
  }

  /** The addresses of the objects a span was carved into. */
  function Objects(s: Span, c: nat, pageSize: nat): set<nat> {
    set k: nat | k < s.totalObjects :: Slot(s.pageId * pageSize, c, k)
  }

  function Members(list: seq<nat>): set<nat> {
    set a | a in list
  }

  /** The objects of a span that are not on its free list. */
  function Out(s: Span, c: nat, pageSize: nat): set<nat> {
    Objects(s, c, pageSize) - Members(s.freeList)
  }

  /** The number of the page an address lies on. */
  function PageOf(a: nat, pageSize: nat): nat
    requires pageSize > 0
  {
    a / pageSize
  }

  /** The objects that fit into a span of the class. */
  function Capacity(numPages: nat, c: nat, pageSize: nat): nat
    requires c > 0
  {
    numPages * pageSize / c
  }

  lemma CeilCovers(x: nat, d: nat)
    requires d > 0
    ensures (x + d - 1) / d * d >= x
  {
    var q, r := (x + d - 1) / d, (x + d - 1) % d;
    assert x + d - 1 == d * q + r;
  }

  lemma DivBounds(x: nat, d: nat)
    requires d > 0
    ensures x / d * d <= x < (x / d + 1) * d
  {
  }

  lemma MulMono(a: nat, b: nat, c: nat)
    requires a <= b
    ensures a * c <= b * c
  {
  }

  lemma CeilLeast(x: nat, d: nat)
    requires d > 0
    ensures (x + d - 1) / d * d < x + d
  {
    var q, r := (x + d - 1) / d, (x + d - 1) % d;
    assert x + d - 1 == d * q + r;
  }

  /** A class asks for the fewest pages that hold 256 of its objects, and a span holds as many as fit. */
  lemma FewestPages(c: nat, pageSize: nat)
    requires c > 0 && pageSize > 0
    ensures var n := PagesFor(c, pageSize);
            && n >= 1 && n * pageSize >= 256 * c && (n - 1) * pageSize < 256 * c
            && Capacity(n, c, pageSize) * c <= n * pageSize < Capacity(n, c, pageSize) * c + c
  {
    var n := PagesFor(c, pageSize);
    CeilCovers(c * 256, pageSize);
    CeilLeast(c * 256, pageSize);
    assert (n - 1) * pageSize == n * pageSize - pageSize;
    DivBounds(n * pageSize, c);
    var k := Capacity(n, c, pageSize);
    assert (k + 1) * c == k * c + c;
  }

  /** Every carved span yields at least 256 objects. */
  lemma AtLeast256(c: nat, pageSize: nat)
    requires c > 0 && pageSize > 0
    ensures Capacity(PagesFor(c, pageSize), c, pageSize) >= 256
  {
    CeilCovers(c * 256, pageSize);
    var total := PagesFor(c, pageSize) * pageSize;
    assert total >= c * 256;
    DivBounds(total, c);
    if total / c < 256 {
      MulMono(total / c + 1, 256, c);
    }
  }

  /** An object lies inside the bytes of its span. */
  lemma ObjectWithin(s: Span, c: nat, pageSize: nat, a: nat)
    requires c > 0 && pageSize > 0 && s.totalObjects == Capacity(s.numPages, c, pageSize)
    requires a in Objects(s, c, pageSize)
    ensures s.pageId * pageSize <= a && a + c <= s.End() * pageSize
    ensures s.Has(PageOf(a, pageSize))
  {
    var k: nat :| k < s.totalObjects && a == Slot(s.pageId * pageSize, c, k);
    MulMono(k + 1, s.totalObjects, c);
    DivBounds(s.numPages * pageSize, c);
    assert (k + 1) * c == k * c + c;
    assert s.End() * pageSize == s.pageId * pageSize + s.numPages * pageSize;
    DivBounds(a, pageSize);
    var p := a / pageSize;
    if p < s.pageId {
      MulMono(p + 1, s.pageId, pageSize);
    } else if p >= s.End() {
      MulMono(s.End(), p, pageSize);
    }
  }

  /** Two objects of one span do not overlap. */
  lemma SlotsApart(base: nat, c: nat, j: nat, k: nat)
    requires j < k
    ensures Slot(base, c, j) + c <= Slot(base, c, k)
  {
    MulMono(j + 1, k, c);
    assert (j + 1) * c == j * c + c;
  }

  lemma {:induction false} CarveListIs(base: nat, c: nat, n: nat)
    requires c > 0
    ensures |CarveList(base, c, n)| == n && NoDup(CarveList(base, c, n))
    ensures forall a :: a in CarveList(base, c, n) <==> exists k: nat :: k < n && a == Slot(base, c, k)
  {
    if n > 0 {
      CarveListIs(base, c, n - 1);
      var rest := CarveList(base, c, n - 1);
      var top := Slot(base, c, n - 1);
      forall a | a in rest
        ensures a != top
      {
        var k: nat :| k < n - 1 && a == Slot(base, c, k);
        SlotsApart(base, c, k, n - 1);
      }
      NoDupCons(top, rest);
      forall a
        ensures a in [top] + rest <==> exists k: nat :: k < n && a == Slot(base, c, k)
      {
        if k: nat :| k < n && a == Slot(base, c, k) {
          assert k == n - 1 || k < n - 1;
        }
      }
    }
  }

  // ---- The state of the central level ----

  datatype CentralState = CentralState(pageSize: nat, pages: PageState, lists: seq<seq<SpanRef>>)

  /** A span of class `ci`: carved as far as it goes, at least one object out, free list exact. */
  ghost predicate SpanOk(s: Span, ci: nat, pageSize: nat)
    requires ci < NUM_CLASSES && pageSize > 0
  {
    && s.sizeClass == ci
    && s.numPages == PagesFor(Size(ci), pageSize)
    && s.totalObjects == Capacity(s.numPages, Size(ci), pageSize)
    && NoDup(s.freeList)
    && s.freeCount == |s.freeList| < s.totalObjects
    && (forall a | a in s.freeList :: a in Objects(s, Size(ci), pageSize))
  }

  /** Each class's list holds exactly the outstanding spans of that class. */
  ghost predicate ListsOk(cs: CentralState) {
    && cs.pageSize > 0
    && |cs.lists| == NUM_CLASSES
    && (forall ci | 0 <= ci < NUM_CLASSES :: NoDup(cs.lists[ci]))
    && (forall ci, s | 0 <= ci < NUM_CLASSES && s in cs.lists[ci] ::
          s in cs.pages.outstanding && s in cs.pages.heap && SpanOk(cs.pages.heap[s], ci, cs.pageSize))
    && (forall s | s in cs.pages.outstanding ::
          && s in cs.pages.heap && cs.pages.heap[s].sizeClass < NUM_CLASSES
          && s in cs.lists[cs.pages.heap[s].sizeClass])
  }

  ghost predicate CentralValid(cs: CentralState) {
    Pages.Valid(cs.pages) && ListsOk(cs)
  }

  /** The objects of the listed spans that are out. */
  ghost function OutOf(heap: map<SpanRef, Span>, list: seq<SpanRef>, c: nat, pageSize: nat): set<nat> {
    set s, a | s in list && s in heap && a in Out(heap[s], c, pageSize) :: a
  }

  lemma OutOfSame(heap: map<SpanRef, Span>, heap': map<SpanRef, Span>, list: seq<SpanRef>, c: nat, pageSize: nat)
    requires forall s | s in list :: s in heap && s in heap' && heap'[s] == heap[s]
    ensures OutOf(heap', list, c, pageSize) == OutOf(heap, list, c, pageSize)
  {
    hide Out;
  }

  lemma OutOfCons(heap: map<SpanRef, Span>, s: SpanRef, list: seq<SpanRef>, c: nat, pageSize: nat)
    requires s in heap
    ensures OutOf(heap, [s] + list, c, pageSize) == Out(heap[s], c, pageSize) + OutOf(heap, list, c, pageSize)
  {
    hide Out;
    assert forall t :: t in [s] + list <==> t == s || t in list;
  }

  /** The objects of class `ci` that are not in a span: with a thread or with the application. */
  ghost function Held(cs: CentralState, ci: nat): set<nat>
    requires ListsOk(cs) && ci < NUM_CLASSES
  {
    OutOf(cs.pages.heap, cs.lists[ci], Size(ci), cs.pageSize)
  }

  /** The one span whose pages contain an object. */
  lemma SameSpan(cs: CentralState, ci: nat, s: SpanRef, cj: nat, t: SpanRef, a: nat)
    requires ListsOk(cs) && ci < NUM_CLASSES && cj < NUM_CLASSES
    requires s in cs.lists[ci] && t in cs.lists[cj]
    requires a in Objects(cs.pages.heap[s], Size(ci), cs.pageSize)
    requires cs.pages.heap[t].Has(PageOf(a, cs.pageSize))
    requires Pages.Valid(cs.pages)
    ensures s == t && ci == cj
  {
    hide ValidExcept;
    ObjectWithin(cs.pages.heap[s], Size(ci), cs.pageSize, a);
    MappedPagesPartitioned(cs.pages, PageOf(a, cs.pageSize));
  }

  /**
   * No two objects handed out, of whatever classes, share a byte: two carved
   * objects with different addresses lie apart.
   */
  lemma ObjectsNeverOverlap(cs: CentralState, ci: nat, s: SpanRef, a: nat, cj: nat, t: SpanRef, b: nat)
    requires ListsOk(cs) && ci < NUM_CLASSES && cj < NUM_CLASSES
    requires s in cs.lists[ci] && a in Objects(cs.pages.heap[s], Size(ci), cs.pageSize)
    requires t in cs.lists[cj] && b in Objects(cs.pages.heap[t], Size(cj), cs.pageSize)
    requires Pages.Valid(cs.pages) && a <= b
    ensures (a == b && s == t) || a + Size(ci) <= b
  {
    hide ValidExcept;
    var sp, tp := cs.pages.heap[s], cs.pages.heap[t];
    assert SpanOk(sp, ci, cs.pageSize) && SpanOk(tp, cj, cs.pageSize);
    hide ListsOk;
    if s == t {
      ObjectsOfOneSpan(sp, Size(ci), cs.pageSize, a, b);
    } else {
      ObjectWithin(sp, Size(ci), cs.pageSize, a);
      ObjectWithin(tp, Size(cj), cs.pageSize, b);
      SpansApart(cs.pages, s, t);
      if sp.End() <= tp.pageId {
        MulMono(sp.End(), tp.pageId, cs.pageSize);
      } else {
        MulMono(tp.End(), sp.pageId, cs.pageSize);
      }
    }
  }

  lemma ObjectsOfOneSpan(s: Span, c: nat, pageSize: nat, a: nat, b: nat)
    requires a in Objects(s, c, pageSize) && b in Objects(s, c, pageSize) && a <= b
    ensures a == b || a + c <= b
  {
    var base := s.pageId * pageSize;
    var j: nat :| j < s.totalObjects && a == Slot(base, c, j);
    var k: nat :| k < s.totalObjects && b == Slot(base, c, k);
    if j < k {
      SlotsApart(base, c, j, k);
    } else if k < j {
      SlotsApart(base, c, k, j);
    }
  }

  lemma SpansApart(st: PageState, s: SpanRef, t: SpanRef)
    requires Pages.Valid(st) && s in st.outstanding && t in st.outstanding && s != t
    ensures s in st.heap && t in st.heap
    ensures st.heap[s].End() <= st.heap[t].pageId || st.heap[t].End() <= st.heap[s].pageId
  {
    var a, b := st.heap[s].pageId, st.heap[t].pageId;
    assert st.heap[s].Has(a) && st.owner[a] == s;
    assert st.heap[t].Has(b) && st.owner[b] == t;
    assert !st.heap[t].Has(a) && !st.heap[s].Has(b);
  }

  // ---- One object out, one object back ----

  function WithSpan(cs: CentralState, s: SpanRef, span: Span): CentralState {
    cs.(pages := cs.pages.(heap := cs.pages.heap[s := span]))
  }

  function Popped(s: Span): Span
    requires s.freeList != [] && s.freeCount > 0
  {
    s.(freeList := s.freeList[1..], freeCount := s.freeCount - 1)
  }

  function Put(s: Span, obj: nat): Span {
    s.(freeList := [obj] + s.freeList, freeCount := s.freeCount + 1)
  }

  /** Exactly the object `obj`, which nobody held, is now held in class `ci`. */
  ghost predicate Gains(cs: CentralState, cs': CentralState, ci: nat, obj: nat)
    requires ListsOk(cs) && ListsOk(cs') && ci < NUM_CLASSES
  {
    forall cj | 0 <= cj < NUM_CLASSES ::
      && obj !in Held(cs, cj)
      && Held(cs', cj) == if cj == ci then Held(cs, cj) + {obj} else Held(cs, cj)
  }

  /** Exactly the object `obj`, held in class `ci`, is no longer held. */
  ghost predicate Loses(cs: CentralState, cs': CentralState, ci: nat, obj: nat)
    requires ListsOk(cs) && ListsOk(cs') && ci < NUM_CLASSES
  {
    && obj in Held(cs, ci)
    && forall cj | 0 <= cj < NUM_CLASSES ::
         Held(cs', cj) == if cj == ci then Held(cs, cj) - {obj} else Held(cs, cj)
  }

  /**
   * A list's span that had `obj` out: it keeps its place with the object in
   * front of its free list unless this was the last one out.
   */
  ghost predicate SpanSettled(cs: CentralState, cs': CentralState, ci: nat, obj: nat)
    requires ListsOk(cs) && ci < |cs'.lists| && ci < NUM_CLASSES
  {
    forall s | s in cs.lists[ci] && s in cs.pages.heap && obj in Out(cs.pages.heap[s], Size(ci), cs.pageSize) ::
      && (s in cs'.lists[ci] <==> Out(cs.pages.heap[s], Size(ci), cs.pageSize) != {obj})
      && (s in cs'.lists[ci] ==> cs' == WithSpan(cs, s, Put(cs.pages.heap[s], obj)))
  }

  lemma PopOne(s: Span, ci: nat, pageSize: nat)
    requires ci < NUM_CLASSES && pageSize > 0 && SpanOk(s, ci, pageSize) && s.freeCount > 0
    ensures SpanOk(Popped(s), ci, pageSize)
    ensures s.freeList[0] in Objects(s, Size(ci), pageSize) && s.freeList[0] !in Out(s, Size(ci), pageSize)
    ensures Out(Popped(s), Size(ci), pageSize) == Out(s, Size(ci), pageSize) + {s.freeList[0]}
  {
    var obj := s.freeList[0];
    assert s.freeList == [obj] + s.freeList[1..];
    assert forall a :: a in s.freeList <==> a == obj || a in s.freeList[1..];
  }

  lemma PutOne(s: Span, ci: nat, pageSize: nat, obj: nat)
    requires ci < NUM_CLASSES && pageSize > 0 && SpanOk(s, ci, pageSize)
    requires obj in Out(s, Size(ci), pageSize)
    ensures Out(Put(s, obj), Size(ci), pageSize) == Out(s, Size(ci), pageSize) - {obj}
    ensures s.freeCount + 1 < s.totalObjects ==> SpanOk(Put(s, obj), ci, pageSize)
  {
    NoDupCons(obj, s.freeList);
  }

  lemma ListsOkAfter(cs: CentralState, ci: nat, s: SpanRef, span: Span)
    requires ListsOk(cs) && ci < NUM_CLASSES && s in cs.lists[ci]
    requires SpanOk(span, ci, cs.pageSize)
    ensures ListsOk(WithSpan(cs, s, span))
  {
    assert span.sizeClass == ci;
    hide SpanOk;
    assert forall cj | 0 <= cj < NUM_CLASSES && cj != ci :: s !in cs.lists[cj] by {
      ClassOf(cs, ci, s);
    }
  }

  lemma ClassOf(cs: CentralState, ci: nat, s: SpanRef)
    requires ListsOk(cs) && ci < NUM_CLASSES && s in cs.lists[ci]
    ensures forall cj | 0 <= cj < NUM_CLASSES && s in cs.lists[cj] :: cj == ci
  {
    forall cj | 0 <= cj < NUM_CLASSES && s in cs.lists[cj]
      ensures cj == ci
    {
      assert SpanOk(cs.pages.heap[s], cj, cs.pageSize) && SpanOk(cs.pages.heap[s], ci, cs.pageSize);
    }
  }

  lemma HeldMembers(cs: CentralState, ci: nat, a: nat)
    requires ListsOk(cs) && ci < NUM_CLASSES
    ensures a in Held(cs, ci) <==>
            exists s :: s in cs.lists[ci] && a in Out(cs.pages.heap[s], Size(ci), cs.pageSize)
  {
  }

  /** Step 1 of `CentralCache::allocate`. */
  lemma PopGains(cs: CentralState, ci: nat, s: SpanRef)
    requires ListsOk(cs) && ci < NUM_CLASSES && s in cs.lists[ci]
    requires cs.pages.heap[s].freeCount > 0 && cs.pages.heap[s].freeList != []
    requires Pages.Valid(cs.pages)
    ensures var cs' := WithSpan(cs, s, Popped(cs.pages.heap[s]));
            CentralValid(cs') && Gains(cs, cs', ci, cs.pages.heap[s].freeList[0])
  {
    hide ValidExcept;
    var sp := cs.pages.heap[s];
    var obj, cs' := sp.freeList[0], WithSpan(cs, s, Popped(sp));
    PopOne(sp, ci, cs.pageSize);
    ExtentsDecide(cs.pages, s, Popped(sp));
    ListsOkAfter(cs, ci, s, Popped(sp));
    ClassOf(cs, ci, s);
    forall cj | 0 <= cj < NUM_CLASSES
      ensures obj !in Held(cs, cj)
      ensures Held(cs', cj) == if cj == ci then Held(cs, cj) + {obj} else Held(cs, cj)
    {
      NotHeldElsewhere(cs, ci, s, obj, cj);
      hide SpanOk, Out;
      if cj == ci {
        assert forall t | t in cs.lists[ci] && t != s :: cs'.pages.heap[t] == cs.pages.heap[t];
      } else {
        assert forall t | t in cs.lists[cj] :: cs'.pages.heap[t] == cs.pages.heap[t];
      }
    }
  }

  /** An object on the free list of its span is held nowhere. */
  lemma NotHeldElsewhere(cs: CentralState, ci: nat, s: SpanRef, obj: nat, cj: nat)
    requires ListsOk(cs) && ci < NUM_CLASSES && cj < NUM_CLASSES && s in cs.lists[ci]
    requires obj in Objects(cs.pages.heap[s], Size(ci), cs.pageSize)
    requires Pages.Valid(cs.pages)
    ensures forall t | t in cs.lists[cj] && obj in Objects(cs.pages.heap[t], Size(cj), cs.pageSize) :: t == s && cj == ci
    ensures obj !in Out(cs.pages.heap[s], Size(ci), cs.pageSize) ==> obj !in Held(cs, cj)
  {
    hide ValidExcept;
    forall t | t in cs.lists[cj] && obj in Objects(cs.pages.heap[t], Size(cj), cs.pageSize)
      ensures t == s && cj == ci
    {
      assert SpanOk(cs.pages.heap[t], cj, cs.pageSize);
      ObjectWithin(cs.pages.heap[t], Size(cj), cs.pageSize, obj);
      SameSpan(cs, ci, s, cj, t, obj);
    }
  }

  /** An object goes back to its span, which still has others out. */
  lemma PutLoses(cs: CentralState, ci: nat, s: SpanRef, obj: nat)
    requires ListsOk(cs) && ci < NUM_CLASSES && s in cs.lists[ci]
    requires obj in Out(cs.pages.heap[s], Size(ci), cs.pageSize)
    requires cs.pages.heap[s].freeCount + 1 < cs.pages.heap[s].totalObjects
    requires Pages.Valid(cs.pages)
    ensures var cs' := WithSpan(cs, s, Put(cs.pages.heap[s], obj));
            CentralValid(cs') && Loses(cs, cs', ci, obj)
  {
    hide ValidExcept, Capacity, PagesFor, Slot;
    var sp := cs.pages.heap[s];
    var cs' := WithSpan(cs, s, Put(sp, obj));
    PutOne(sp, ci, cs.pageSize, obj);
    ExtentsDecide(cs.pages, s, Put(sp, obj));
    ListsOkAfter(cs, ci, s, Put(sp, obj));
    ClassOf(cs, ci, s);
    hide SpanOk, Out, Objects, Held, ListsOk;
    forall cj | 0 <= cj < NUM_CLASSES
      ensures Held(cs', cj) == if cj == ci then Held(cs, cj) - {obj} else Held(cs, cj)
    {
      PutHeld(cs, ci, s, obj, cj);
    }
  }

  lemma PutHeld(cs: CentralState, ci: nat, s: SpanRef, obj: nat, cj: nat)
    requires ListsOk(cs) && ci < NUM_CLASSES && cj < NUM_CLASSES && s in cs.lists[ci]
    requires obj in Out(cs.pages.heap[s], Size(ci), cs.pageSize)
    requires Pages.Valid(cs.pages) && ListsOk(WithSpan(cs, s, Put(cs.pages.heap[s], obj)))
    ensures Held(WithSpan(cs, s, Put(cs.pages.heap[s], obj)), cj) == if cj == ci then Held(cs, cj) - {obj} else Held(cs, cj)
  {
    hide ValidExcept, SpanOk, Out, Objects, Put;
    var cs' := WithSpan(cs, s, Put(cs.pages.heap[s], obj));
    OutsAfterPut(cs, ci, s, obj, cj);
    forall a
      ensures a in Held(cs', cj) <==> a in Held(cs, cj) && (cj == ci ==> a != obj)
    {
      HeldMembers(cs, cj, a);
      HeldMembers(cs', cj, a);
    }
  }

  lemma OutsAfterPut(cs: CentralState, ci: nat, s: SpanRef, obj: nat, cj: nat)
    requires ListsOk(cs) && ci < NUM_CLASSES && cj < NUM_CLASSES && s in cs.lists[ci]
    requires obj in Out(cs.pages.heap[s], Size(ci), cs.pageSize) && Pages.Valid(cs.pages)
    ensures s in cs.lists[cj] ==> cj == ci
    ensures Out(Put(cs.pages.heap[s], obj), Size(ci), cs.pageSize) == Out(cs.pages.heap[s], Size(ci), cs.pageSize) - {obj}
    ensures forall t | t in cs.lists[cj] && t != s :: obj !in Out(cs.pages.heap[t], Size(cj), cs.pageSize)
  {
    hide ValidExcept, Capacity, PagesFor, Slot;
    PutOne(cs.pages.heap[s], ci, cs.pageSize, obj);
    ClassOf(cs, ci, s);
    NotHeldElsewhere(cs, ci, s, obj, cj);
  }

  lemma {:induction false} SlotSetSize(base: nat, c: nat, n: nat)
    requires c > 0
    ensures |set k: nat | k < n :: Slot(base, c, k)| == n
  {
    var all := set k: nat | k < n :: Slot(base, c, k);
    if n > 0 {
      SlotSetSize(base, c, n - 1);
      var fewer := set k: nat | k < n - 1 :: Slot(base, c, k);
      var top := Slot(base, c, n - 1);
      forall a | a in fewer
        ensures a != top
      {
        var k: nat :| k < n - 1 && a == Slot(base, c, k);
        SlotsApart(base, c, k, n - 1);
      }
      assert all == fewer + {top};
    }
  }

  lemma {:induction false} ListSetSize(list: seq<nat>)
    requires NoDup(list)
    ensures |Members(list)| == |list|
  {
    if list != [] {
      ListSetSize(list[1..]);
      assert list[0] !in Members(list[1..]);
      assert Members(list) == Members(list[1..]) + {list[0]};
    }
  }

  lemma ObjectsSize(s: Span, c: nat, pageSize: nat)
    requires c > 0
    ensures |Objects(s, c, pageSize)| == s.totalObjects
  {
    var base := s.pageId * pageSize;
    SlotSetSize(base, c, s.totalObjects);
    assert Objects(s, c, pageSize) == set k: nat | k < s.totalObjects :: Slot(base, c, k);
  }

  /** As many objects are out as the counters say. */
  lemma OutCount(s: Span, ci: nat, pageSize: nat)
    requires ci < NUM_CLASSES && pageSize > 0 && SpanOk(s, ci, pageSize)
    ensures |Out(s, Size(ci), pageSize)| == s.totalObjects - s.freeCount
  {
    hide Capacity, PagesFor, Slot;
    var objects, free := Objects(s, Size(ci), pageSize), Members(s.freeList);
    ObjectsSize(s, Size(ci), pageSize);
    ListSetSize(s.freeList);
    assert free <= objects && objects == (objects - free) + free;
  }

  /** The comparison of the counters asks exactly whether `obj` is the last object out. */
  lemma LastOneOut(s: Span, ci: nat, pageSize: nat, obj: nat)
    requires ci < NUM_CLASSES && pageSize > 0 && SpanOk(s, ci, pageSize)
    requires obj in Out(s, Size(ci), pageSize)
    ensures s.freeCount + 1 == s.totalObjects <==> Out(s, Size(ci), pageSize) == {obj}
  {
    OutCount(s, ci, pageSize);
    var out := Out(s, Size(ci), pageSize);
    assert |out - {obj}| == |out| - 1;
  }

  /** `st'` is the page level after `span` was given back to it. */
  ghost predicate TakenBack(st: PageState, st': PageState, s: SpanRef) {
    && Pages.Valid(st')
    && st'.outstanding == st.outstanding - {s}
    && (forall t | t in st'.outstanding :: t in st.heap && t in st'.heap && st'.heap[t] == st.heap[t])
  }

  /** The last object goes back and takes its span along. */
  lemma ReturnLoses(cs: CentralState, ci: nat, s: SpanRef, obj: nat, st': PageState)
    requires ListsOk(cs) && ci < NUM_CLASSES && s in cs.lists[ci]
    requires Out(cs.pages.heap[s], Size(ci), cs.pageSize) == {obj}
    requires Pages.Valid(cs.pages) && TakenBack(cs.pages, st', s)
    ensures var cs' := CentralState(cs.pageSize, st', cs.lists[ci := Without(cs.lists[ci], s)]);
            CentralValid(cs') && Loses(cs, cs', ci, obj)
  {
    hide ValidExcept, Capacity, PagesFor, Slot;
    var cs' := CentralState(cs.pageSize, st', cs.lists[ci := Without(cs.lists[ci], s)]);
    WithoutMembers(cs.lists[ci], s);
    ClassOf(cs, ci, s);
    ListsOkAfterReturn(cs, ci, s, st');
    forall cj | 0 <= cj < NUM_CLASSES
      ensures Held(cs', cj) == if cj == ci then Held(cs, cj) - {obj} else Held(cs, cj)
    {
      NotHeldElsewhere(cs, ci, s, obj, cj);
      assert forall t | t in cs.lists[cj] && t != s :: obj !in Out(cs.pages.heap[t], Size(cj), cs.pageSize);
      assert forall t | t in cs'.lists[cj] :: cs'.pages.heap[t] == cs.pages.heap[t];
      hide SpanOk, Out;
    }
  }

  lemma ListsOkAfterReturn(cs: CentralState, ci: nat, s: SpanRef, st': PageState)
    requires ListsOk(cs) && ci < NUM_CLASSES && s in cs.lists[ci]
    requires TakenBack(cs.pages, st', s)
    ensures ListsOk(CentralState(cs.pageSize, st', cs.lists[ci := Without(cs.lists[ci], s)]))
  {
    hide ValidExcept, SpanOk;
    WithoutMembers(cs.lists[ci], s);
    ClassOf(cs, ci, s);
  }

  // ---- A new span for a class ----

  function Carved(s: Span, ci: nat, pageSize: nat): Span
    requires ci < NUM_CLASSES
  {
    var total := Capacity(s.numPages, Size(ci), pageSize);
    s.(sizeClass := ci, freeList := CarveList(s.pageId * pageSize, Size(ci), total),
       freeCount := total, totalObjects := total)
  }

  lemma CarvedAndPopped(s: Span, ci: nat, pageSize: nat)
    requires ci < NUM_CLASSES && pageSize > 0 && s.numPages == PagesFor(Size(ci), pageSize)
    ensures var carved := Carved(s, ci, pageSize);
            && carved.freeCount >= 256 && carved.freeList != []
            && SpanOk(Popped(carved), ci, pageSize)
            && Out(Popped(carved), Size(ci), pageSize) == {carved.freeList[0]}
  {
    var carved := Carved(s, ci, pageSize);
    AtLeast256(Size(ci), pageSize);
    CarveListIs(s.pageId * pageSize, Size(ci), carved.totalObjects);
    assert carved.freeList == [carved.freeList[0]] + carved.freeList[1..];
    assert forall a :: a in carved.freeList <==> a in Objects(carved, Size(ci), pageSize);
  }

  /** Step 2 of `CentralCache::allocate`: the first object of a freshly carved span. */
  lemma FetchGains(cs: CentralState, ci: nat, s: SpanRef, st': PageState)
    requires ListsOk(cs) && ci < NUM_CLASSES
    requires HandedOut(cs.pages, st', PagesFor(Size(ci), cs.pageSize), s)
    requires Carved(st'.heap[s], ci, cs.pageSize).freeCount > 0 && Carved(st'.heap[s], ci, cs.pageSize).freeList != []
    requires Pages.Valid(cs.pages)
    ensures var carved := Carved(st'.heap[s], ci, cs.pageSize);
            var cs' := CentralState(cs.pageSize, st'.(heap := st'.heap[s := Popped(carved)]),
                                    cs.lists[ci := [s] + cs.lists[ci]]);
            CentralValid(cs') && Gains(cs, cs', ci, carved.freeList[0])
  {
    hide ValidExcept, Capacity, PagesFor, Slot;
    var carved := Carved(st'.heap[s], ci, cs.pageSize);
    var popped, obj := Popped(carved), carved.freeList[0];
    var cs' := CentralState(cs.pageSize, st'.(heap := st'.heap[s := popped]), cs.lists[ci := [s] + cs.lists[ci]]);
    CarvedAndPopped(st'.heap[s], ci, cs.pageSize);
    ExtentsDecide(st', s, popped);
    ListsOkAfterFetch(cs, ci, s, st', popped);
    SpanAdded(cs, cs', ci, s, obj);
  }

  /** A span with only `obj` out joins the list of its class. */
  lemma SpanAdded(cs: CentralState, cs': CentralState, ci: nat, s: SpanRef, obj: nat)
    requires ListsOk(cs) && ci < NUM_CLASSES && s !in cs.pages.outstanding && s in cs'.pages.heap
    requires forall t | t in cs.pages.outstanding :: t in cs'.pages.heap && cs'.pages.heap[t] == cs.pages.heap[t]
    requires cs'.lists == cs.lists[ci := [s] + cs.lists[ci]] && cs'.pageSize == cs.pageSize
    requires Out(cs'.pages.heap[s], Size(ci), cs.pageSize) == {obj}
    requires CentralValid(cs')
    ensures Gains(cs, cs', ci, obj)
  {
    forall cj | 0 <= cj < NUM_CLASSES
      ensures obj !in Held(cs, cj)
      ensures Held(cs', cj) == if cj == ci then Held(cs, cj) + {obj} else Held(cs, cj)
    {
      SpanAddedOne(cs, cs', ci, s, obj, cj);
    }
  }

  lemma SpanAddedOne(cs: CentralState, cs': CentralState, ci: nat, s: SpanRef, obj: nat, cj: nat)
    requires ListsOk(cs) && ci < NUM_CLASSES && s !in cs.pages.outstanding && s in cs'.pages.heap
    requires forall t | t in cs.pages.outstanding :: t in cs'.pages.heap && cs'.pages.heap[t] == cs.pages.heap[t]
    requires cs'.lists == cs.lists[ci := [s] + cs.lists[ci]] && cs'.pageSize == cs.pageSize
    requires Out(cs'.pages.heap[s], Size(ci), cs.pageSize) == {obj} && cj < NUM_CLASSES
    requires CentralValid(cs')
    ensures obj !in Held(cs, cj)
    ensures Held(cs', cj) == if cj == ci then Held(cs, cj) + {obj} else Held(cs, cj)
  {
    hide ValidExcept, SpanOk, Capacity, PagesFor, Slot, Objects, Out;
    NewObjectFree(cs, cs', ci, s, obj, cj);
    OldSpansSame(cs, cs', cj);
    hide ListsOk;
    OutOfSame(cs.pages.heap, cs'.pages.heap, cs.lists[cj], Size(cj), cs.pageSize);
    OutOfCons(cs'.pages.heap, s, cs.lists[ci], Size(ci), cs.pageSize);
  }

  lemma OldSpansSame(cs: CentralState, cs': CentralState, cj: nat)
    requires ListsOk(cs) && cj < NUM_CLASSES
    requires forall t | t in cs.pages.outstanding :: t in cs'.pages.heap && cs'.pages.heap[t] == cs.pages.heap[t]
    ensures forall t | t in cs.lists[cj] ::
              t in cs.pages.outstanding && t in cs.pages.heap && t in cs'.pages.heap && cs'.pages.heap[t] == cs.pages.heap[t]
  {
    hide SpanOk;
  }

  lemma NewObjectFree(cs: CentralState, cs': CentralState, ci: nat, s: SpanRef, obj: nat, cj: nat)
    requires ListsOk(cs) && ci < NUM_CLASSES && s !in cs.pages.outstanding && s in cs'.pages.heap
    requires forall t | t in cs.pages.outstanding :: t in cs'.pages.heap && cs'.pages.heap[t] == cs.pages.heap[t]
    requires cs'.lists == cs.lists[ci := [s] + cs.lists[ci]] && cs'.pageSize == cs.pageSize
    requires Out(cs'.pages.heap[s], Size(ci), cs.pageSize) == {obj} && cj < NUM_CLASSES
    requires CentralValid(cs')
    ensures obj !in Held(cs, cj)
  {
    hide ValidExcept, SpanOk, Capacity, PagesFor, Slot, Objects;
    OldSpansSame(cs, cs', cj);
    assert forall t | t in cs.lists[cj] :: t != s && t in cs'.lists[cj];
    assert s in cs'.lists[ci];
    NotHeldElsewhere(cs', ci, s, obj, cj);
  }

  /** The span `s` is handed out and put in front of the list of its class. */
  lemma ListsOkWith(cs: CentralState, cs': CentralState, ci: nat, s: SpanRef)
    requires ListsOk(cs) && ci < NUM_CLASSES && s !in cs.pages.outstanding && s in cs'.pages.heap
    requires cs'.pageSize == cs.pageSize && cs'.lists == cs.lists[ci := [s] + cs.lists[ci]]
    requires cs'.pages.outstanding == cs.pages.outstanding + {s}
    requires forall t | t in cs.pages.outstanding :: t in cs'.pages.heap && cs'.pages.heap[t] == cs.pages.heap[t]
    requires SpanOk(cs'.pages.heap[s], ci, cs.pageSize) && cs'.pages.heap[s].sizeClass == ci
    ensures ListsOk(cs')
  {
    hide SpanOk;
    assert s !in cs.lists[ci];
    NoDupCons(s, cs.lists[ci]);
    assert forall t :: t in [s] + cs.lists[ci] <==> t == s || t in cs.lists[ci];
  }

  lemma ListsOkAfterFetch(cs: CentralState, ci: nat, s: SpanRef, st': PageState, span: Span)
    requires ListsOk(cs) && ci < NUM_CLASSES
    requires HandedOut(cs.pages, st', PagesFor(Size(ci), cs.pageSize), s) && SpanOk(span, ci, cs.pageSize)
    ensures ListsOk(CentralState(cs.pageSize, st'.(heap := st'.heap[s := span]), cs.lists[ci := [s] + cs.lists[ci]]))
  {
    assert span.sizeClass == ci;
    hide ValidExcept, SpanOk, ListsOk;
    ListsOkWith(cs, CentralState(cs.pageSize, st'.(heap := st'.heap[s := span]), cs.lists[ci := [s] + cs.lists[ci]]), ci, s);
  }

  // ---- What the levels above see ----

  /** Per class, the objects that are out. */
  type HeldSets = h: seq<set<nat>> | |h| == NUM_CLASSES witness seq(NUM_CLASSES, i => {})

  ghost function AllHeld(cs: CentralState): HeldSets
    requires ListsOk(cs)
  {
    seq(NUM_CLASSES, ci requires 0 <= ci < NUM_CLASSES => Held(cs, ci))
  }

  ghost predicate HeldNowhere(held: HeldSets, obj: nat) {
    forall cj | 0 <= cj < NUM_CLASSES :: obj !in held[cj]
  }

  lemma GainsAll(cs: CentralState, cs': CentralState, ci: nat, obj: nat)
    requires ListsOk(cs) && ListsOk(cs') && ci < NUM_CLASSES && Gains(cs, cs', ci, obj)
    ensures HeldNowhere(AllHeld(cs), obj)
    ensures AllHeld(cs') == AllHeld(cs)[ci := AllHeld(cs)[ci] + {obj}]
  {
    hide ListsOk, OutOf;
  }

  lemma LosesAll(cs: CentralState, cs': CentralState, ci: nat, obj: nat)
    requires ListsOk(cs) && ListsOk(cs') && ci < NUM_CLASSES && Loses(cs, cs', ci, obj)
    ensures AllHeld(cs') == AllHeld(cs)[ci := AllHeld(cs)[ci] - {obj}]
  {
    hide ListsOk, OutOf;
  }

  /** What is held may be given back. */
  lemma HeldIsOut(cs: CentralState, ci: nat, obj: nat)
    requires ListsOk(cs) && ci < NUM_CLASSES && obj in AllHeld(cs)[ci]
    requires Pages.Valid(cs.pages)
    ensures forall s | s in cs.lists[ci] && cs.pages.heap[s].Has(PageOf(obj, cs.pageSize)) ::
              obj in Out(cs.pages.heap[s], Size(ci), cs.pageSize)
  {
    hide ValidExcept, SpanOk;
    HeldMembers(cs, ci, obj);
    var t :| t in cs.lists[ci] && obj in Out(cs.pages.heap[t], Size(ci), cs.pageSize);
    forall s | s in cs.lists[ci] && cs.pages.heap[s].Has(PageOf(obj, cs.pageSize))
      ensures s == t
    {
      SameSpan(cs, ci, t, ci, s, obj);
    }
  }
}
