/**
 * All threads of the pool together.  A step is one critical section of the
 * central cache, which `CentralCache.Allocate` and `CentralCache.Deallocate`
 * implement, or one action of a thread on its own lists; steps of different
 * threads interleave freely.
 */
module Pool {
  import opened Pages
  import opened Seqs
  import opened SizeClass
  import opened CentralState
  import opened ThreadCaches

  type ThreadId = nat

  /** What a thread is in the middle of; `objs` are in its local array, on no list. */
  datatype Phase =
    | Idle
    | Fetching(ci: nat, objs: seq<nat>)
    | Returning(ci: nat, objs: seq<nat>, target: nat)

  datatype Thread = Thread(lists: Lists, phase: Phase)

  datatype Pool = Pool(held: HeldSets, threads: map<ThreadId, Thread>, app: HeldSets)

  datatype Step =
    | StartFetch(ci: nat)              // allocate on an empty list
    | FetchOne(obj: nat)               // one CentralCache::allocate of the loop
    | FetchDone                        // the pushes and the pop after the loop
    | PopLocal(ci: nat)                // allocate on a non-empty list
    | Free(ci: nat, obj: nat)          // deallocate, up to the threshold test
    | StartReturnAll(ci: nat)          // destructor
    | PopBatch                         // one pop_batch
    | ReturnOne                        // one CentralCache::deallocate of the loop
    | ReturnDone

  function Busy(t: Thread): seq<nat> {
    if t.phase.Idle? then [] else t.phase.objs
  }

  ghost predicate Next(p: Pool, p': Pool, t: ThreadId, step: Step) {
    t in p.threads &&
    var th := p.threads[t];
    match step
    case StartFetch(ci) =>
      && ci < NUM_CLASSES && th.phase.Idle? && th.lists[ci] == []
      && p' == p.(threads := p.threads[t := th.(phase := Fetching(ci, []))])
    case FetchOne(obj) =>
      && th.phase.Fetching? && th.phase.ci < NUM_CLASSES && |th.phase.objs| < 256 && HeldNowhere(p.held, obj)
      && var ci := th.phase.ci;
         p' == p.(held := p.held[ci := p.held[ci] + {obj}],
                  threads := p.threads[t := th.(phase := Fetching(ci, [obj] + th.phase.objs))])
    case FetchDone =>
      && th.phase.Fetching? && th.phase.ci < NUM_CLASSES
      && var ci, objs := th.phase.ci, th.phase.objs;
         if objs == [] then p' == p.(threads := p.threads[t := th.(phase := Idle)])
         else p' == p.(threads := p.threads[t := Thread(th.lists[ci := objs[1..]], Idle)],
                       app := p.app[ci := p.app[ci] + {objs[0]}])
    case PopLocal(ci) =>
      && ci < NUM_CLASSES && th.phase.Idle? && th.lists[ci] != []
      && p' == p.(threads := p.threads[t := Thread(th.lists[ci := th.lists[ci][1..]], Idle)],
                  app := p.app[ci := p.app[ci] + {th.lists[ci][0]}])
    case Free(ci, obj) =>
      && ci < NUM_CLASSES && th.phase.Idle? && obj in p.app[ci]
      && var list := [obj] + th.lists[ci];
         p' == p.(threads := p.threads[t := Thread(th.lists[ci := list],
                                                   if |list| > RETURN_THRESHOLD then Returning(ci, [], |list| / 2) else Idle)],
                  app := p.app[ci := p.app[ci] - {obj}])
    case StartReturnAll(ci) =>
      && ci < NUM_CLASSES && th.phase.Idle?
      && p' == p.(threads := p.threads[t := th.(phase := Returning(ci, [], |th.lists[ci]|))])
    case PopBatch =>
      && th.phase.Returning? && th.phase.ci < NUM_CLASSES && th.phase.objs == []
      && th.phase.target <= |th.lists[th.phase.ci]|
      && var ci, batch := th.phase.ci, if th.phase.target < 256 then th.phase.target else 256;
         p' == p.(threads := p.threads[t := Thread(th.lists[ci := th.lists[ci][batch..]],
                                                   Returning(ci, th.lists[ci][..batch], th.phase.target - batch))])
    case ReturnOne =>
      && th.phase.Returning? && th.phase.ci < NUM_CLASSES && th.phase.objs != []
      && var ci := th.phase.ci;
         p' == p.(held := p.held[ci := p.held[ci] - {th.phase.objs[0]}],
                  threads := p.threads[t := th.(phase := Returning(ci, th.phase.objs[1..], th.phase.target))])
    case ReturnDone =>
      && th.phase.Returning? && th.phase.objs == [] && th.phase.target == 0
      && p' == p.(threads := p.threads[t := th.(phase := Idle)])
  }

  /** Where an object that is out can be. */
  datatype Place = WithApp(ci: nat) | OnList(t: ThreadId, ci: nat) | InArray(t: ThreadId, ci: nat)

  /** `at` puts every object that is out in one place, and the sets and lists say the same. */
  ghost predicate Tracks(p: Pool, at: map<nat, Place>) {
    && TracksSets(p.held, p.app, at)
    && (forall o | o in at :: at[o].ci < NUM_CLASSES && (at[o].WithApp? || at[o].t in p.threads))
    && (forall t | t in p.threads :: TracksThread(p.threads[t], t, at))
  }

  ghost predicate TracksSets(held: HeldSets, app: HeldSets, at: map<nat, Place>) {
    && (forall ci, o | 0 <= ci < NUM_CLASSES :: o in held[ci] <==> o in at && at[o].ci == ci)
    && (forall ci, o | 0 <= ci < NUM_CLASSES :: o in app[ci] <==> o in at && at[o] == WithApp(ci))
  }

  ghost predicate TracksThread(th: Thread, t: ThreadId, at: map<nat, Place>) {
    && (forall ci, o | 0 <= ci < NUM_CLASSES :: o in th.lists[ci] <==> o in at && at[o] == OnList(t, ci))
    && (forall ci | 0 <= ci < NUM_CLASSES :: NoDup(th.lists[ci]))
    && NoDup(Busy(th))
    && (!th.phase.Idle? ==> th.phase.ci < NUM_CLASSES)
    && (forall o :: o in Busy(th) <==> o in at && at[o].InArray? && at[o].t == t)
    && (forall o | o in Busy(th) :: at[o].ci == th.phase.ci)
  }

  /** The bounds on the lists. */
  ghost predicate Bounded(th: Thread) {
    match th.phase
    case Idle => forall ci | 0 <= ci < NUM_CLASSES :: |th.lists[ci]| < MAX_CACHED
    case Fetching(c, objs) =>
      && c < NUM_CLASSES && th.lists[c] == [] && |objs| <= MAX_CACHED
      && forall ci | 0 <= ci < NUM_CLASSES :: |th.lists[ci]| < MAX_CACHED
    case Returning(c, objs, target) =>
      && c < NUM_CLASSES && target <= |th.lists[c]| <= MAX_CACHED && |objs| <= MAX_CACHED
      && |th.lists[c]| - target < MAX_CACHED
      && forall ci | 0 <= ci < NUM_CLASSES && ci != c :: |th.lists[ci]| < MAX_CACHED
  }

  ghost predicate Inv(p: Pool) {
    && (exists at :: Tracks(p, at))
    && (forall t | t in p.threads :: Bounded(p.threads[t]))
  }

  lemma StepKeepsBounds(p: Pool, p': Pool, t: ThreadId, step: Step)
    requires Next(p, p', t, step) && Bounded(p.threads[t])
    ensures t in p'.threads && Bounded(p'.threads[t])
    ensures p'.threads.Keys == p.threads.Keys
    ensures forall u | u in p.threads && u != t :: p'.threads[u] == p.threads[u]
  {
  }

  /** The step of thread `t` leaves the objects of the other threads where they are. */
  ghost predicate OnlyTouches(at: map<nat, Place>, at': map<nat, Place>, t: ThreadId) {
    && (forall o | o in at && !at[o].WithApp? && at[o].t != t :: o in at' && at'[o] == at[o])
    && (forall o | o in at' && !at'[o].WithApp? && at'[o].t != t :: o in at && at'[o] == at[o])
  }

  lemma OtherThread(th: Thread, u: ThreadId, at: map<nat, Place>, at': map<nat, Place>, t: ThreadId)
    requires TracksThread(th, u, at) && OnlyTouches(at, at', t) && u != t
    ensures TracksThread(th, u, at')
  {
  }

  /** It suffices to look at the sets and at the thread that moved. */
  lemma TracksAfter(p: Pool, p': Pool, t: ThreadId, at: map<nat, Place>, at': map<nat, Place>)
    requires Tracks(p, at) && t in p.threads && t in p'.threads
    requires p'.threads == p.threads[t := p'.threads[t]]
    requires TracksSets(p'.held, p'.app, at') && TracksThread(p'.threads[t], t, at') && OnlyTouches(at, at', t)
    requires forall o | o in at' :: at'[o].ci < NUM_CLASSES
    ensures Tracks(p', at')
  {
    hide TracksThread, TracksSets;
    forall u | u in p'.threads
      ensures TracksThread(p'.threads[u], u, at')
    {
      if u != t {
        OtherThread(p.threads[u], u, at, at', t);
      }
    }
  }

  // ---- One object or batch changes place: the sets ----

  lemma AllPlacedHeld(held: HeldSets, app: HeldSets, at: map<nat, Place>, obj: nat)
    requires TracksSets(held, app, at) && HeldNowhere(held, obj)
    requires forall o | o in at :: at[o].ci < NUM_CLASSES
    ensures obj !in at
  {
    assert forall o | o in at :: o in held[at[o].ci];
  }

  lemma SetsGain(held: HeldSets, app: HeldSets, at: map<nat, Place>, obj: nat, place: Place)
    requires TracksSets(held, app, at) && obj !in at && place.ci < NUM_CLASSES && !place.WithApp?
    ensures TracksSets(held[place.ci := held[place.ci] + {obj}], app, at[obj := place])
  {
  }

  lemma SetsLose(held: HeldSets, app: HeldSets, at: map<nat, Place>, obj: nat)
    requires TracksSets(held, app, at) && obj in at && at[obj].ci < NUM_CLASSES && !at[obj].WithApp?
    ensures TracksSets(held[at[obj].ci := held[at[obj].ci] - {obj}], app, at - {obj})
  {
  }

  lemma SetsToApp(held: HeldSets, app: HeldSets, at: map<nat, Place>, obj: nat)
    requires TracksSets(held, app, at) && obj in at && at[obj].ci < NUM_CLASSES
    ensures TracksSets(held, app[at[obj].ci := app[at[obj].ci] + {obj}], at[obj := WithApp(at[obj].ci)])
  {
  }

  lemma SetsFromApp(held: HeldSets, app: HeldSets, at: map<nat, Place>, obj: nat, t: ThreadId)
    requires TracksSets(held, app, at) && obj in at && at[obj].ci < NUM_CLASSES
    ensures TracksSets(held, app[at[obj].ci := app[at[obj].ci] - {obj}], at[obj := OnList(t, at[obj].ci)])
  {
  }

  /** Moving objects between the places of one thread within their class. */
  function Moved(at: map<nat, Place>, objs: seq<nat>, place: Place): map<nat, Place> {
    map o | o in at :: if o in objs then place else at[o]
  }

  lemma SetsMoved(held: HeldSets, app: HeldSets, at: map<nat, Place>, objs: seq<nat>, place: Place)
    requires TracksSets(held, app, at) && !place.WithApp?
    requires forall o | o in objs :: o in at && !at[o].WithApp? && at[o].ci == place.ci
    ensures TracksSets(held, app, Moved(at, objs, place))
  {
    var at' := Moved(at, objs, place);
    assert forall o | o in at :: at'[o].ci == at[o].ci && (at'[o].WithApp? <==> at[o].WithApp?);
  }

  // ---- The same for the thread that moves them ----

  lemma ArrayGains(th: Thread, t: ThreadId, at: map<nat, Place>, obj: nat)
    requires TracksThread(th, t, at) && th.phase.Fetching? && obj !in at
    ensures TracksThread(th.(phase := Fetching(th.phase.ci, [obj] + th.phase.objs)), t, at[obj := InArray(t, th.phase.ci)])
  {
    NoDupCons(obj, th.phase.objs);
    assert forall o :: o in [obj] + th.phase.objs <==> o == obj || o in th.phase.objs;
  }

  lemma ArrayLoses(th: Thread, t: ThreadId, at: map<nat, Place>)
    requires TracksThread(th, t, at) && th.phase.Returning? && th.phase.objs != []
    ensures TracksThread(th.(phase := Returning(th.phase.ci, th.phase.objs[1..], th.phase.target)), t,
                         at - {th.phase.objs[0]})
  {
    HeadAndTail(th.phase.objs);
    var obj, rest := th.phase.objs[0], th.phase.objs[1..];
    forall o
      ensures o in rest <==> o in at - {obj} && (at - {obj})[o].InArray? && (at - {obj})[o].t == t
    {
      assert o in Busy(th) <==> o in rest || o == obj;
    }
    assert obj in Busy(th);
  }

  lemma ListLoses(th: Thread, t: ThreadId, at: map<nat, Place>, ci: nat)
    requires TracksThread(th, t, at) && ci < NUM_CLASSES && th.lists[ci] != []
    ensures TracksThread(Thread(th.lists[ci := th.lists[ci][1..]], th.phase), t, at[th.lists[ci][0] := WithApp(ci)])
  {
    HeadAndTail(th.lists[ci]);
    var obj := th.lists[ci][0];
    assert obj in th.lists[ci] && at[obj] == OnList(t, ci);
    assert forall cj | 0 <= cj < NUM_CLASSES && cj != ci :: obj !in th.lists[cj];
    assert Busy(Thread(th.lists[ci := th.lists[ci][1..]], th.phase)) == Busy(th);
  }

  lemma ListGains(th: Thread, t: ThreadId, at: map<nat, Place>, ci: nat, obj: nat)
    requires TracksThread(th, t, at) && ci < NUM_CLASSES && obj in at && at[obj].WithApp?
    ensures TracksThread(Thread(th.lists[ci := [obj] + th.lists[ci]], th.phase), t, at[obj := OnList(t, ci)])
  {
    NoDupCons(obj, th.lists[ci]);
    assert forall o :: o in [obj] + th.lists[ci] <==> o == obj || o in th.lists[ci];
  }

  lemma HeadAndTail(s: seq<nat>)
    requires s != [] && NoDup(s)
    ensures NoDup(s[1..]) && forall o :: o in s[1..] <==> o in s && o != s[0]
  {
    assert s == [s[0]] + s[1..];
  }

  lemma ArrayToList(th: Thread, t: ThreadId, at: map<nat, Place>)
    requires TracksThread(th, t, at) && th.phase.Fetching? && th.lists[th.phase.ci] == []
    ensures TracksThread(Thread(th.lists[th.phase.ci := th.phase.objs], Idle), t,
                         Moved(at, th.phase.objs, OnList(t, th.phase.ci)))
  {
  }

  lemma ListToArray(th: Thread, t: ThreadId, at: map<nat, Place>, n: nat)
    requires TracksThread(th, t, at) && th.phase.Returning? && th.phase.objs == []
    requires n <= |th.lists[th.phase.ci]| && n <= th.phase.target
    ensures var ci := th.phase.ci;
            TracksThread(Thread(th.lists[ci := th.lists[ci][n..]], Returning(ci, th.lists[ci][..n], th.phase.target - n)), t,
                         Moved(at, th.lists[ci][..n], InArray(t, ci)))
  {
    SplitAtN(th.lists[th.phase.ci], n);
  }

  lemma SplitAtN(s: seq<nat>, n: nat)
    requires n <= |s| && NoDup(s)
    ensures NoDup(s[..n]) && NoDup(s[n..])
    ensures forall o :: o in s <==> o in s[..n] || o in s[n..]
    ensures forall o :: !(o in s[..n] && o in s[n..])
  {
    assert s == s[..n] + s[n..];
  }

  // ---- Every step keeps every object in one place ----

  lemma FetchOneTracked(p: Pool, p': Pool, t: ThreadId, obj: nat, at: map<nat, Place>) returns (at': map<nat, Place>)
    requires Next(p, p', t, FetchOne(obj)) && Tracks(p, at)
    ensures Tracks(p', at')
  {
    hide TracksThread, TracksSets;
    var th := p.threads[t];
    at' := at[obj := InArray(t, th.phase.ci)];
    AllPlacedHeld(p.held, p.app, at, obj);
    SetsGain(p.held, p.app, at, obj, InArray(t, th.phase.ci));
    ArrayGains(th, t, at, obj);
    TracksAfter(p, p', t, at, at');
  }

  lemma FetchDoneTracked(p: Pool, p': Pool, t: ThreadId, at: map<nat, Place>) returns (at': map<nat, Place>)
    requires Next(p, p', t, FetchDone) && Tracks(p, at) && Bounded(p.threads[t])
    ensures Tracks(p', at')
  {
    hide TracksThread, TracksSets;
    var th := p.threads[t];
    var ci, objs := th.phase.ci, th.phase.objs;
    ArrayPlaces(th, t, at);
    if objs == [] {
      at' := at;
      EmptyArray(th, p'.threads[t], t, at);
    } else {
      at' := Moved(at, objs, OnList(t, ci))[objs[0] := WithApp(ci)];
      FetchedToApp(p, t, at);
      FetchedTouches(p, t, at, ci, objs);
    }
    hide Moved, OnlyTouches, Bounded;
    TracksAfter(p, p', t, at, at');
  }

  lemma FetchedTouches(p: Pool, t: ThreadId, at: map<nat, Place>, ci: nat, objs: seq<nat>)
    requires Tracks(p, at) && ci < NUM_CLASSES && objs != []
    requires forall o | o in objs :: o in at && at[o] == InArray(t, ci)
    ensures var at' := Moved(at, objs, OnList(t, ci))[objs[0] := WithApp(ci)];
            OnlyTouches(at, at', t) && forall o | o in at' :: at'[o].ci < NUM_CLASSES
  {
    hide TracksThread, TracksSets;
    assert objs[0] in objs;
  }

  lemma FetchedToApp(p: Pool, t: ThreadId, at: map<nat, Place>)
    requires Tracks(p, at) && t in p.threads && p.threads[t].phase.Fetching?
    requires p.threads[t].phase.ci < NUM_CLASSES && Bounded(p.threads[t]) && p.threads[t].phase.objs != []
    ensures var th, ci, objs := p.threads[t], p.threads[t].phase.ci, p.threads[t].phase.objs;
            var at' := Moved(at, objs, OnList(t, ci))[objs[0] := WithApp(ci)];
            && TracksSets(p.held, p.app[ci := p.app[ci] + {objs[0]}], at')
            && TracksThread(Thread(th.lists[ci := objs[1..]], Idle), t, at')
  {
    var th := p.threads[t];
    var ci, objs := th.phase.ci, th.phase.objs;
    hide TracksThread, TracksSets;
    ArrayPlaces(th, t, at);
    var mid := Moved(at, objs, OnList(t, ci));
    ArrayToList(th, t, at);
    SetsMoved(p.held, p.app, at, objs, OnList(t, ci));
    ListLoses(Thread(th.lists[ci := objs], Idle), t, mid, ci);
    assert th.lists[ci := objs][ci := objs[1..]] == th.lists[ci := objs[1..]];
    SetsToApp(p.held, p.app, mid, objs[0]);
  }

  lemma ArrayPlaces(th: Thread, t: ThreadId, at: map<nat, Place>)
    requires TracksThread(th, t, at) && !th.phase.Idle?
    ensures th.phase.ci < NUM_CLASSES
    ensures forall o | o in th.phase.objs :: o in at && at[o] == InArray(t, th.phase.ci)
  {
    assert forall o | o in th.phase.objs :: o in Busy(th);
  }

  lemma ListPlaces(th: Thread, t: ThreadId, at: map<nat, Place>, ci: nat)
    requires TracksThread(th, t, at) && ci < NUM_CLASSES
    ensures forall o | o in th.lists[ci] :: o in at && at[o] == OnList(t, ci)
  {
  }

  lemma AppPlaces(held: HeldSets, app: HeldSets, at: map<nat, Place>, ci: nat)
    requires TracksSets(held, app, at) && ci < NUM_CLASSES
    ensures forall o | o in app[ci] :: o in at && at[o] == WithApp(ci)
  {
  }

  lemma PopLocalTracked(p: Pool, p': Pool, t: ThreadId, ci: nat, at: map<nat, Place>) returns (at': map<nat, Place>)
    requires Next(p, p', t, PopLocal(ci)) && Tracks(p, at)
    ensures Tracks(p', at')
  {
    hide TracksThread, TracksSets;
    var th := p.threads[t];
    ListPlaces(th, t, at, ci);
    var obj := th.lists[ci][0];
    at' := at[obj := WithApp(ci)];
    ListLoses(th, t, at, ci);
    SetsToApp(p.held, p.app, at, obj);
    TracksAfter(p, p', t, at, at');
  }

  lemma FreeTracked(p: Pool, p': Pool, t: ThreadId, ci: nat, obj: nat, at: map<nat, Place>) returns (at': map<nat, Place>)
    requires Next(p, p', t, Free(ci, obj)) && Tracks(p, at)
    ensures Tracks(p', at')
  {
    hide TracksThread, TracksSets;
    var th := p.threads[t];
    AppPlaces(p.held, p.app, at, ci);
    at' := at[obj := OnList(t, ci)];
    ListGains(th, t, at, ci, obj);
    EmptyArray(Thread(th.lists[ci := [obj] + th.lists[ci]], Idle), p'.threads[t], t, at');
    SetsFromApp(p.held, p.app, at, obj, t);
    TracksAfter(p, p', t, at, at');
  }

  /** Only the lists and the local array matter. */
  lemma EmptyArray(th: Thread, th': Thread, t: ThreadId, at: map<nat, Place>)
    requires TracksThread(th, t, at) && th'.lists == th.lists && Busy(th) == [] && Busy(th') == []
    requires !th'.phase.Idle? ==> th'.phase.ci < NUM_CLASSES
    ensures TracksThread(th', t, at)
  {
  }

  lemma PopBatchTracked(p: Pool, p': Pool, t: ThreadId, at: map<nat, Place>) returns (at': map<nat, Place>)
    requires Next(p, p', t, PopBatch) && Tracks(p, at)
    ensures Tracks(p', at')
  {
    hide TracksThread, TracksSets;
    var th := p.threads[t];
    var ci, n := th.phase.ci, if th.phase.target < 256 then th.phase.target else 256;
    ListPlaces(th, t, at, ci);
    var objs := th.lists[ci][..n];
    at' := Moved(at, objs, InArray(t, ci));
    assert forall o | o in objs :: o in th.lists[ci];
    ListToArray(th, t, at, n);
    SetsMoved(p.held, p.app, at, objs, InArray(t, ci));
    TracksAfter(p, p', t, at, at');
  }

  lemma ReturnOneTracked(p: Pool, p': Pool, t: ThreadId, at: map<nat, Place>) returns (at': map<nat, Place>)
    requires Next(p, p', t, ReturnOne) && Tracks(p, at)
    ensures Tracks(p', at')
  {
    hide TracksThread, TracksSets;
    var th := p.threads[t];
    ArrayPlaces(th, t, at);
    var obj := th.phase.objs[0];
    at' := at - {obj};
    ArrayLoses(th, t, at);
    SetsLose(p.held, p.app, at, obj);
    TracksAfter(p, p', t, at, at');
  }

  lemma PhaseTracked(p: Pool, p': Pool, t: ThreadId, at: map<nat, Place>)
    requires Tracks(p, at) && t in p.threads && t in p'.threads
    requires p' == p.(threads := p.threads[t := p.threads[t].(phase := p'.threads[t].phase)])
    requires Busy(p.threads[t]) == [] && Busy(p'.threads[t]) == []
    requires !p'.threads[t].phase.Idle? ==> p'.threads[t].phase.ci < NUM_CLASSES
    ensures Tracks(p', at)
  {
    hide TracksThread, TracksSets;
    EmptyArray(p.threads[t], p'.threads[t], t, at);
    TracksAfter(p, p', t, at, at);
  }

  lemma StepKeepsTrack(p: Pool, p': Pool, t: ThreadId, step: Step, at: map<nat, Place>) returns (at': map<nat, Place>)
    requires Next(p, p', t, step) && Tracks(p, at) && Bounded(p.threads[t])
    ensures Tracks(p', at')
  {
    hide Tracks;
    match step {
      case FetchOne(obj) => at' := FetchOneTracked(p, p', t, obj, at);
      case FetchDone => at' := FetchDoneTracked(p, p', t, at);
      case PopLocal(ci) => at' := PopLocalTracked(p, p', t, ci, at);
      case Free(ci, obj) => at' := FreeTracked(p, p', t, ci, obj, at);
      case PopBatch => at' := PopBatchTracked(p, p', t, at);
      case ReturnOne => at' := ReturnOneTracked(p, p', t, at);
      case StartFetch(_) => PhaseTracked(p, p', t, at); at' := at;
      case StartReturnAll(_) => PhaseTracked(p, p', t, at); at' := at;
      case ReturnDone => PhaseTracked(p, p', t, at); at' := at;
    }
  }

  lemma StepKeepsInv(p: Pool, p': Pool, t: ThreadId, step: Step)
    requires Next(p, p', t, step) && Inv(p)
    ensures Inv(p')
  {
    hide Tracks, Next, Bounded;
    var at :| Tracks(p, at);
    NextThread(p, p', t, step);
    var at' := StepKeepsTrack(p, p', t, step, at);
    StepKeepsBounds(p, p', t, step);
  }

  lemma NextThread(p: Pool, p': Pool, t: ThreadId, step: Step)
    requires Next(p, p', t, step)
    ensures t in p.threads
  {
  }

  // ---- Runs ----

  ghost predicate Init(p: Pool) {
    && (forall ci | 0 <= ci < NUM_CLASSES :: p.held[ci] == {} && p.app[ci] == {})
    && forall t | t in p.threads ::
         p.threads[t].phase.Idle? && forall ci | 0 <= ci < NUM_CLASSES :: p.threads[t].lists[ci] == []
  }

  datatype Move = Move(t: ThreadId, step: Step)

  ghost predicate IsRun(states: seq<Pool>, moves: seq<Move>) {
    && |states| == |moves| + 1 && Init(states[0])
    && forall i | 0 <= i < |moves| :: Next(states[i], states[i + 1], moves[i].t, moves[i].step)
  }

  lemma {:induction false} RunsKeepInv(states: seq<Pool>, moves: seq<Move>, i: nat)
    requires IsRun(states, moves) && i < |states|
    ensures Inv(states[i])
  {
    hide Next, Inv;
    if i == 0 {
      InitInv(states[0]);
    } else {
      RunsKeepInv(states, moves, i - 1);
      StepKeepsInv(states[i - 1], states[i], moves[i - 1].t, moves[i - 1].step);
    }
  }

  lemma InitInv(p: Pool)
    requires Init(p)
    ensures Inv(p)
  {
    assert Tracks(p, map[]);
  }

  /** The objects of class `ci` that thread `th` has, on its list or in its local array. */
  ghost function WithThread(th: Thread, ci: nat): set<nat>
    requires ci < NUM_CLASSES
  {
    Members(th.lists[ci]) + if !th.phase.Idle? && th.phase.ci == ci then Members(th.phase.objs) else {}
  }

  /**
   * `o` is out in class `ci` iff the application or some thread has it; never
   * both, never two threads, never twice with one, and never in two classes.
   */
  ghost predicate InOnePlace(p: Pool, ci: nat, o: nat)
    requires ci < NUM_CLASSES
  {
    && (o in p.held[ci] <==> o in p.app[ci] || exists t :: t in p.threads && o in WithThread(p.threads[t], ci))
    && (forall t | t in p.threads && o in WithThread(p.threads[t], ci) :: o !in p.app[ci])
    && (forall t, u | t in p.threads && u in p.threads &&
                      o in WithThread(p.threads[t], ci) && o in WithThread(p.threads[u], ci) :: t == u)
    && (forall t | t in p.threads :: OnceWithThread(p.threads[t], ci, o))
    && (forall cj | 0 <= cj < NUM_CLASSES && o in p.held[ci] && o in p.held[cj] :: cj == ci)
  }

  /** A thread has an object once: not twice on its list, not twice in its local batch, and not in both. */
  ghost predicate OnceWithThread(th: Thread, ci: nat, o: nat)
    requires ci < NUM_CLASSES
  {
    NoDup(th.lists[ci]) && NoDup(Busy(th)) && !(o in th.lists[ci] && o in Busy(th))
  }

  /** In every state of every run: one place per object, and no thread list longer than 256. */
  lemma EveryObjectInOnePlace(states: seq<Pool>, moves: seq<Move>, i: nat, ci: nat, o: nat)
    requires IsRun(states, moves) && i < |states| && ci < NUM_CLASSES
    ensures InOnePlace(states[i], ci, o)
    ensures forall t | t in states[i].threads :: |states[i].threads[t].lists[ci]| <= 256
  {
    hide Tracks, InOnePlace, IsRun, WithThread;
    RunsKeepInv(states, moves, i);
    var at :| Tracks(states[i], at);
    OnePlace(states[i], at, ci, o);
  }

  lemma PlaceOf(p: Pool, at: map<nat, Place>, t: ThreadId, ci: nat, o: nat)
    requires Tracks(p, at) && ci < NUM_CLASSES && t in p.threads
    ensures o in WithThread(p.threads[t], ci) <==> o in at && !at[o].WithApp? && at[o].t == t && at[o].ci == ci
    ensures OnceWithThread(p.threads[t], ci, o)
  {
    var th := p.threads[t];
    assert TracksThread(th, t, at);
    assert o in Busy(th) <==> o in at && at[o].InArray? && at[o].t == t;
  }

  lemma OnePlace(p: Pool, at: map<nat, Place>, ci: nat, o: nat)
    requires Tracks(p, at) && ci < NUM_CLASSES
    ensures InOnePlace(p, ci, o)
  {
    hide TracksThread, WithThread, OnceWithThread;
    forall t | t in p.threads
      ensures o in WithThread(p.threads[t], ci) <==> o in at && !at[o].WithApp? && at[o].t == t && at[o].ci == ci
      ensures OnceWithThread(p.threads[t], ci, o)
    {
      PlaceOf(p, at, t, ci, o);
    }
    if o in at && !at[o].WithApp? && at[o].ci == ci {
      assert at[o].t in p.threads && o in WithThread(p.threads[at[o].t], ci);
    }
  }

  // ---- The pool on top of the central cache ----

  datatype System = System(pool: Pool, central: CentralState)

  /** The central cache holds out exactly what the pool says. */
  ghost predicate Linked(sys: System) {
    CentralValid(sys.central) && sys.pool.held == AllHeld(sys.central)
  }

  /** The effect of a step on the central cache: what its `Allocate` and `Deallocate` promise. */
  ghost predicate CentralMoves(cs: CentralState, cs': CentralState, th: Thread, step: Step)
    requires ListsOk(cs)
  {
    match step
    case FetchOne(obj) =>
      CentralValid(cs') && th.phase.Fetching? && th.phase.ci < NUM_CLASSES && Gains(cs, cs', th.phase.ci, obj)
    case ReturnOne =>
      && CentralValid(cs') && th.phase.Returning? && th.phase.ci < NUM_CLASSES && th.phase.objs != []
      && Loses(cs, cs', th.phase.ci, th.phase.objs[0])
    case _ => cs' == cs
  }

  ghost predicate SystemNext(sys: System, sys': System, t: ThreadId, step: Step)
    requires ListsOk(sys.central)
  {
    Next(sys.pool, sys'.pool, t, step) && CentralMoves(sys.central, sys'.central, sys.pool.threads[t], step)
  }

  ghost predicate IsSystemRun(states: seq<System>, moves: seq<Move>) {
    && |states| == |moves| + 1 && Init(states[0].pool) && Linked(states[0])
    && forall i | 0 <= i < |moves| ::
         ListsOk(states[i].central) && SystemNext(states[i], states[i + 1], moves[i].t, moves[i].step)
  }

  lemma StepKeepsLinked(sys: System, sys': System, t: ThreadId, step: Step)
    requires Linked(sys) && SystemNext(sys, sys', t, step)
    ensures Linked(sys')
  {
    hide ListsOk, AllHeld, Gains, Loses, ValidExcept;
    if step.FetchOne? {
      GainsAll(sys.central, sys'.central, sys.pool.threads[t].phase.ci, step.obj);
    } else if step.ReturnOne? {
      LosesAll(sys.central, sys'.central, sys.pool.threads[t].phase.ci, sys.pool.threads[t].phase.objs[0]);
    }
  }

  lemma {:induction false} SystemRunsStayLinked(states: seq<System>, moves: seq<Move>, i: nat)
    requires IsSystemRun(states, moves) && i < |states|
    ensures Linked(states[i]) && Inv(states[i].pool)
  {
    hide Linked, SystemNext, Inv, ListsOk;
    if i > 0 {
      SystemRunsStayLinked(states, moves, i - 1);
      StepKeepsLinked(states[i - 1], states[i], moves[i - 1].t, moves[i - 1].step);
      PoolMoves(states[i - 1], states[i], moves[i - 1].t, moves[i - 1].step);
      StepKeepsInv(states[i - 1].pool, states[i].pool, moves[i - 1].t, moves[i - 1].step);
    } else {
      InitInv(states[0].pool);
    }
  }

  lemma PoolMoves(sys: System, sys': System, t: ThreadId, step: Step)
    requires ListsOk(sys.central) && SystemNext(sys, sys', t, step)
    ensures Next(sys.pool, sys'.pool, t, step)
  {
  }

  /** An object out in class `ci` lies in one span of that class, on pages mapped for it. */
  lemma HeldObject(cs: CentralState, ci: nat, a: nat) returns (s: SpanRef)
    requires CentralValid(cs) && ci < NUM_CLASSES && a in AllHeld(cs)[ci]
    ensures s in cs.lists[ci] && s in cs.pages.heap && a in Objects(cs.pages.heap[s], Size(ci), cs.pageSize)
    ensures PageOf(a, cs.pageSize) in cs.pages.mapped
  {
    hide ValidExcept, SpanOk, Capacity, PagesFor, Slot;
    HeldMembers(cs, ci, a);
    s :| s in cs.lists[ci] && a in Out(cs.pages.heap[s], Size(ci), cs.pageSize);
    SpanOfClass(cs, ci, s);
    ObjectWithin(cs.pages.heap[s], Size(ci), cs.pageSize, a);
    MappedPagesPartitioned(cs.pages, PageOf(a, cs.pageSize));
  }

  lemma SpanOfClass(cs: CentralState, ci: nat, s: SpanRef)
    requires ListsOk(cs) && ci < NUM_CLASSES && s in cs.lists[ci]
    ensures s in cs.pages.outstanding && s in cs.pages.heap
    ensures cs.pages.heap[s].totalObjects == Capacity(cs.pages.heap[s].numPages, Size(ci), cs.pageSize)
  {
    assert SpanOk(cs.pages.heap[s], ci, cs.pageSize);
  }

  /**
   * In every state of every run of all three levels together: whoever holds
   * them, two objects that are out share no byte, and each lies on mapped pages.
   */
  lemma NothingOverlaps(states: seq<System>, moves: seq<Move>, i: nat, ci: nat, a: nat, cj: nat, b: nat)
    requires IsSystemRun(states, moves) && i < |states| && ci < NUM_CLASSES && cj < NUM_CLASSES
    requires a in states[i].pool.held[ci] && b in states[i].pool.held[cj] && a <= b
    ensures (a == b && ci == cj) || a + Size(ci) <= b
    ensures ListsOk(states[i].central)
    ensures PageOf(a, states[i].central.pageSize) in states[i].central.pages.mapped
  {
    hide IsSystemRun, ListsOk, ValidExcept, Objects, AllHeld, Inv;
    SystemRunsStayLinked(states, moves, i);
    var cs := states[i].central;
    var s := HeldObject(cs, ci, a);
    var t := HeldObject(cs, cj, b);
    ObjectsNeverOverlap(cs, ci, s, a, cj, t, b);
    if s == t {
      SameClass(cs, ci, cj, s);
    }
  }

  lemma SameClass(cs: CentralState, ci: nat, cj: nat, s: SpanRef)
    requires ListsOk(cs) && ci < NUM_CLASSES && cj < NUM_CLASSES && s in cs.lists[ci] && s in cs.lists[cj]
    ensures ci == cj
  {
    ClassOf(cs, ci, s);
  }

  /** What a thread gives back is out, so the central cache always finds its span. */
  lemma ReturnedObjectIsOut(states: seq<System>, moves: seq<Move>, i: nat, t: ThreadId)
    requires IsSystemRun(states, moves) && i < |states| && t in states[i].pool.threads
    requires states[i].pool.threads[t].phase.Returning? && states[i].pool.threads[t].phase.objs != []
    ensures var cs, phase := states[i].central, states[i].pool.threads[t].phase;
            && ListsOk(cs) && phase.ci < NUM_CLASSES
            && exists s :: s in cs.lists[phase.ci] && phase.objs[0] in Out(cs.pages.heap[s], Size(phase.ci), cs.pageSize)
  {
    hide IsSystemRun, ListsOk, ValidExcept, AllHeld, Tracks, Objects, Out, Slot;
    SystemRunsStayLinked(states, moves, i);
    var cs, phase := states[i].central, states[i].pool.threads[t].phase;
    var at :| Tracks(states[i].pool, at);
    BusyIsHeld(states[i].pool, at, t);
    HeldSetIs(cs, phase.ci);
    HeldMembers(cs, phase.ci, phase.objs[0]);
  }

  lemma HeldSetIs(cs: CentralState, ci: nat)
    requires ListsOk(cs) && ci < NUM_CLASSES
    ensures AllHeld(cs)[ci] == Held(cs, ci)
  {
  }

  lemma BusyIsHeld(p: Pool, at: map<nat, Place>, t: ThreadId)
    requires Tracks(p, at) && t in p.threads && !p.threads[t].phase.Idle?
    ensures p.threads[t].phase.ci < NUM_CLASSES
    ensures forall o | o in p.threads[t].phase.objs :: o in p.held[p.threads[t].phase.ci]
  {
    ArrayPlaces(p.threads[t], t, at);
  }
}
