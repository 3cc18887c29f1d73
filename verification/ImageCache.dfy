/** The single-flight cache of the docker image list and the handlers that share it
    (daemon/main.go:197-260, 779-833).

    Times are integers; a channel is a number, and `closed` counts how often each was closed
    (closing a channel twice would panic). */
module ImageCache {
  import opened Prelude

  type Images = seq<string>
  const TTL := 10_000_000_000  // ten seconds in nanoseconds

  datatype Cache = Cache(data: Option<Images>, ts: int, inflight: bool, done: Option<nat>,
                         closed: multiset<nat>, made: nat)

  predicate Fresh(c: Cache, now: int) {
    c.data.Some? && now - c.ts < TTL
  }

  function Get(c: Cache, now: int): Option<Images> {
    if Fresh(c, now) then c.data else None
  }

  datatype Begun = Fetch | WaitOn(done: nat) | Hit

  /** `beginRefresh`: the new cache, and whether the caller fetches, waits or looks again. */
  function Begin(c: Cache, now: int): (Cache, Begun) {
    if Fresh(c, now) then (c, Hit)
    else if c.inflight && c.done.Some? then (c, WaitOn(c.done.value))
    else (c.(inflight := true, done := Some(c.made), made := c.made + 1), Fetch)
  }

  /** `finishRefresh`. */
  function Finish(c: Cache): Cache {
    if !c.inflight || c.done.None? then c
    else c.(inflight := false, closed := c.closed + multiset{c.done.value})
  }

  /** A refresh is in flight exactly when the current channel is open; no channel was closed twice. */
  ghost predicate Coherent(c: Cache) {
    && (c.inflight <==> c.done.Some? && c.done.value !in c.closed)
    && (c.done.Some? ==> c.done.value < c.made)
    && (forall ch :: ch in c.closed ==> ch < c.made && c.closed[ch] == 1)
  }

  class ImageListCache {
    var data: Option<Images>
    var ts: int
    var inflight: bool
    var done: Option<nat>
    ghost var closed: multiset<nat>
    var made: nat  // channels created so far

    ghost function View(): Cache
      reads this
    {
      Cache(data, ts, inflight, done, closed, made)
    }

    ghost predicate Valid()
      reads this
    {
      Coherent(View())
    }

    constructor ()
      ensures Valid() && View() == Cache(None, 0, false, None, multiset{}, 0)
    {
      data, ts, inflight, done := None, 0, false, None;
      closed, made := multiset{}, 0;
    }

    method Lookup(now: int) returns (r: Option<Images>)
      ensures r == Get(View(), now)
    {
      if data.Some? && now - ts < TTL {
        return data;
      }
      return None;
    }

    method Set(images: Images, now: int)
      requires Valid()
      modifies this`data, this`ts
      ensures Valid() && View() == old(View()).(data := Some(images), ts := now)
    {
      data, ts := Some(images), now;
    }

    method Invalidate()
      requires Valid()
      modifies this`data, this`ts
      ensures Valid() && View() == old(View()).(data := None, ts := 0)
    {
      data, ts := None, 0;
    }

    method BeginRefresh(now: int) returns (shouldFetch: bool, wait: Option<nat>)
      requires Valid()
      modifies this`inflight, this`done, this`made
      ensures Valid() && View() == Begin(old(View()), now).0
      ensures shouldFetch <==> Begin(old(View()), now).1 == Fetch
      ensures wait.Some? <==> Begin(old(View()), now).1.WaitOn?
      ensures wait.Some? ==> wait.value == Begin(old(View()), now).1.done
    {
      if data.Some? && now - ts < TTL {
        return false, None;
      }
      if inflight {
        return false, done;
      }
      inflight := true;
      done := Some(made);
      made := made + 1;
      return true, None;
    }

    method FinishRefresh()
      requires Valid()
      modifies this`inflight, this`closed
      ensures Valid() && View() == Finish(old(View()))
      ensures old(inflight) ==> old(closed)[done.value] == 0 && closed[done.value] == 1
    {
      if !inflight {
        return;
      }
      inflight := false;
      closed := closed + multiset{done.value};
    }
  }

  // ---------------------------------------------------------------- handlers

  /** Where a request stands: before its first lookup, about to begin a refresh, waiting on a
      channel, looking again, fetching, having its list from Docker, having stored it, or having
      finished once and still owing the deferred finish. */
  datatype Pc =
    | Arrived | Beginning | Waiting(done: nat) | LookingAgain | Fetching | Listed(images: Images) | Stored | Leaving

  datatype State = State(cache: Cache, now: int, pcs: map<nat, Pc>)

  datatype Action =
    | Arrive(h: nat)
    | FirstLookup(h: nat)          // get, line 787
    | BeginRefresh(h: nat)         // line 792
    | Wake(h: nat)                 // line 797
    | SecondLookup(h: nat)         // get, line 799
    | FetchFails(h: nat)           // an error return: only the deferred finish runs
    | List(h: nat, images: Images)   // Docker's answer, line 810
    | Store(h: nat)                // line 830
    | FirstFinish(h: nat)          // line 831
    | DeferredFinish(h: nat)       // line 804
    | Invalidate                   // image pulled, built or removed
    | Tick(d: nat)

  function Leave(s: State, h: nat): State {
    s.(pcs := s.pcs - {h})
  }

  function Goto(s: State, h: nat, pc: Pc): State {
    s.(pcs := s.pcs[h := pc])
  }

  predicate At(s: State, h: nat, pc: Pc) {
    h in s.pcs && s.pcs[h] == pc
  }

  predicate Enabled(s: State, a: Action) {
    match a
    case Arrive(h) => h !in s.pcs
    case FirstLookup(h) => At(s, h, Arrived)
    case BeginRefresh(h) => At(s, h, Beginning)
    case Wake(h) => h in s.pcs && s.pcs[h].Waiting? && s.pcs[h].done in s.cache.closed
    case SecondLookup(h) => At(s, h, LookingAgain)
    case FetchFails(h) => At(s, h, Fetching)
    case List(h, _) => At(s, h, Fetching)
    case Store(h) => h in s.pcs && s.pcs[h].Listed?
    case FirstFinish(h) => At(s, h, Stored)
    case DeferredFinish(h) => At(s, h, Leaving)
    case Invalidate => true
    case Tick(_) => true
  }

  /** One critical section of one handler. */
  function Do(s: State, a: Action): State
    requires Enabled(s, a)
  {
    match a
    case Arrive(h) => Goto(s, h, Arrived)
    case FirstLookup(h) => if Get(s.cache, s.now).Some? then Leave(s, h) else Goto(s, h, Beginning)
    case BeginRefresh(h) =>
      var b := Begin(s.cache, s.now);
      var pc := match b.1 case Fetch => Fetching case WaitOn(ch) => Waiting(ch) case Hit => LookingAgain;
      Goto(s, h, pc).(cache := b.0)
    case Wake(h) => Goto(s, h, LookingAgain)
    case SecondLookup(h) => if Get(s.cache, s.now).Some? then Leave(s, h) else Goto(s, h, Beginning)
    case FetchFails(h) => Leave(s, h).(cache := Finish(s.cache))
    case List(h, images) => Goto(s, h, Listed(images))
    case Store(h) => Goto(s, h, Stored).(cache := s.cache.(data := Some(s.pcs[h].images), ts := s.now))
    case FirstFinish(h) => Goto(s, h, Leaving).(cache := Finish(s.cache))
    case DeferredFinish(h) => Leave(s, h).(cache := Finish(s.cache))
    case Invalidate => s.(cache := s.cache.(data := None, ts := 0))
    case Tick(d) => s.(now := s.now + d)
  }

  const INITIAL := State(Cache(None, 0, false, None, multiset{}, 0), 0, map[])

  /** Steps from `ss[0]` on: each action is enabled and leads to the next state. */
  ghost predicate Path(ss: seq<State>, acts: seq<Action>) {
    && |ss| == |acts| + 1
    && forall i :: 0 <= i < |acts| ==> Enabled(ss[i], acts[i]) && ss[i + 1] == Do(ss[i], acts[i])
  }

  ghost predicate Run(ss: seq<State>, acts: seq<Action>) {
    Path(ss, acts) && ss[0] == INITIAL
  }

  // ---------------------------------------------------------------- channels

  /** What every interleaving keeps, with the doubled finish: the cache is coherent, and every
      channel a handler waits on is closed or is the current open one. */
  ghost predicate Inv(s: State) {
    Coherent(s.cache) && WaitersServed(s.pcs, s.cache)
  }

  lemma BeginCoherent(c: Cache, now: int)
    requires Coherent(c)
    ensures Coherent(Begin(c, now).0) && c.closed == Begin(c, now).0.closed
    ensures c.inflight ==> Begin(c, now).0 == c
  {
  }

  lemma FinishCoherent(c: Cache)
    requires Coherent(c)
    ensures Coherent(Finish(c)) && c.closed <= Finish(c).closed && !Finish(c).inflight
    ensures c.inflight ==> c.done.value in Finish(c).closed
  {
  }

  ghost predicate WaitersServed(pcs: map<nat, Pc>, c: Cache) {
    forall h :: h in pcs && pcs[h].Waiting? ==> pcs[h].done in c.closed || (c.inflight && c.done == Some(pcs[h].done))
  }

  /** A finish serves every waiter. */
  lemma FinishServes(pcs: map<nat, Pc>, c: Cache)
    requires Coherent(c) && WaitersServed(pcs, c)
    ensures Coherent(Finish(c)) && WaitersServed(pcs, Finish(c))
  {
    FinishCoherent(c);
  }

  lemma KeepsInv(s: State, a: Action)
    requires Inv(s) && Enabled(s, a)
    ensures Inv(Do(s, a))
  {
    if a.BeginRefresh? {
      BeginCoherent(s.cache, s.now);
    } else if a.FetchFails? || a.FirstFinish? || a.DeferredFinish? {
      FinishServes(s.pcs, s.cache);
    }
  }

  lemma {:induction false} RunInv(ss: seq<State>, acts: seq<Action>, n: nat)
    requires Run(ss, acts) && n < |ss|
    ensures Inv(ss[n])
  {
    if n > 0 {
      RunInv(ss, acts, n - 1);
      KeepsInv(ss[n - 1], acts[n - 1]);
    }
  }

  // ---------------------------------------------------------------- waiting

  /** Over every run, where a begin leads: with a fresh list to the second lookup; with a stale one
      and a refresh in flight to waiting on its open channel; and otherwise to fetching, with a
      channel in flight that was never used before. */
  lemma BeginOutcome(ss: seq<State>, acts: seq<Action>, n: nat, h: nat)
    requires Run(ss, acts) && n < |acts| && acts[n] == BeginRefresh(h)
    ensures var s, t := ss[n], ss[n + 1];
            h in t.pcs &&
            if s.cache.data.Some? && s.now < s.cache.ts + TTL then t.pcs[h] == LookingAgain && t.cache == s.cache
            else if s.cache.inflight then
              && s.cache.done.Some? && t.pcs[h] == Waiting(s.cache.done.value)
              && s.cache.done.value !in s.cache.closed && t.cache == s.cache
            else
              && t.pcs[h] == Fetching && t.cache.inflight
              && t.cache.done.Some? && t.cache.done != s.cache.done && t.cache.done.value !in t.cache.closed
  {
    RunInv(ss, acts, n);
    assert Enabled(ss[n], acts[n]) && ss[n + 1] == Do(ss[n], acts[n]);
  }

  /** Over every run, a waiting handler goes on only by waking once its channel is closed. */
  lemma {:induction false} WaitEnds(ss: seq<State>, acts: seq<Action>, i: nat, n: nat, h: nat, ch: nat) returns (k: nat)
    requires Run(ss, acts) && i < n < |ss| && At(ss[i], h, Waiting(ch)) && !At(ss[n], h, Waiting(ch))
    ensures i <= k < n && acts[k] == Wake(h) && At(ss[k], h, Waiting(ch)) && ch in ss[k].cache.closed
    decreases n - i
  {
    assert Enabled(ss[i], acts[i]) && ss[i + 1] == Do(ss[i], acts[i]);
    if At(ss[i + 1], h, Waiting(ch)) {
      k := WaitEnds(ss, acts, i + 1, n, h, ch);
    } else {
      k := i;
    }
  }

  /** Over every run, a second lookup was preceded by a wake on a closed channel or by a begin that
      found a fresh list, with no step of the handler between. */
  lemma {:induction false} LookedAgainAfter(ss: seq<State>, acts: seq<Action>, n: nat, h: nat) returns (j: nat)
    requires Run(ss, acts) && n < |ss| && At(ss[n], h, LookingAgain)
    ensures j < n && forall t :: j < t <= n ==> At(ss[t], h, LookingAgain)
    ensures || (acts[j] == BeginRefresh(h) && Get(ss[j].cache, ss[j].now).Some?)
            || (acts[j] == Wake(h) && h in ss[j].pcs && ss[j].pcs[h].Waiting?
                && ss[j].pcs[h].done in ss[j].cache.closed)
  {
    assert n > 0;
    assert Enabled(ss[n - 1], acts[n - 1]) && ss[n] == Do(ss[n - 1], acts[n - 1]);
    if At(ss[n - 1], h, LookingAgain) {
      j := LookedAgainAfter(ss, acts, n - 1, h);
    } else {
      j := n - 1;
    }
  }

  /** A lookup that misses goes on to the begin: no request is dropped. */
  lemma MissBegins(ss: seq<State>, acts: seq<Action>, n: nat, h: nat)
    requires Run(ss, acts) && n < |acts| && (acts[n] == FirstLookup(h) || acts[n] == SecondLookup(h))
    ensures if Get(ss[n].cache, ss[n].now).Some? then h !in ss[n + 1].pcs else At(ss[n + 1], h, Beginning)
  {
    assert Enabled(ss[n], acts[n]) && ss[n + 1] == Do(ss[n], acts[n]);
  }

  /** A request ends only with a fresh list, with an error, or after it has stored its own. */
  lemma LeavesAnswered(ss: seq<State>, acts: seq<Action>, n: nat, h: nat)
    requires Run(ss, acts) && n < |acts| && h in ss[n].pcs && h !in ss[n + 1].pcs
    ensures || ((acts[n] == FirstLookup(h) || acts[n] == SecondLookup(h)) && Get(ss[n].cache, ss[n].now).Some?)
            || acts[n] == FetchFails(h) || acts[n] == DeferredFinish(h)
  {
    assert Enabled(ss[n], acts[n]) && ss[n + 1] == Do(ss[n], acts[n]);
  }

  // ---------------------------------------------------------------- single flight

  /** The handlers between a successful begin and their own first finish. */
  predicate Owner(s: State, h: nat) {
    h in s.pcs && (s.pcs[h] == Fetching || s.pcs[h].Listed? || s.pcs[h] == Stored)
  }

  /** At most one handler owns a refresh, and one does exactly when a refresh is in flight. */
  ghost predicate SingleFlight(s: State) {
    && (forall h, g :: Owner(s, h) && Owner(s, g) ==> h == g)
    && (s.cache.inflight <==> exists h :: Owner(s, h))
  }

  /** A deferred finish that ends a refresh its handler no longer owns. */
  predicate Stray(s: State, a: Action) {
    a.DeferredFinish? && s.cache.inflight
  }

  lemma KeepsSingleFlight(s: State, a: Action)
    requires Inv(s) && SingleFlight(s) && Enabled(s, a) && !Stray(s, a)
    ensures SingleFlight(Do(s, a))
  {
    var t := Do(s, a);
    if a.Arrive? || a.FirstLookup? || a.BeginRefresh? || a.Wake? || a.SecondLookup? || a.FetchFails?
       || a.List? || a.Store? || a.FirstFinish? || a.DeferredFinish? {
      assert forall g :: g != a.h ==> (Owner(t, g) <==> Owner(s, g));
      assert Owner(s, a.h) ==> s.cache.inflight;
      if Owner(t, a.h) {
        assert exists h :: Owner(t, h);
      }
    } else {
      assert forall g :: Owner(t, g) <==> Owner(s, g);
    }
  }

  lemma {:induction false} SingleFlightPath(ss: seq<State>, acts: seq<Action>, n: nat)
    requires Path(ss, acts) && n < |ss| && Inv(ss[0]) && SingleFlight(ss[0])
    requires forall i :: 0 <= i < n ==> !Stray(ss[i], acts[i])
    ensures Inv(ss[n]) && SingleFlight(ss[n])
  {
    if n > 0 {
      SingleFlightPath(ss, acts, n - 1);
      KeepsInv(ss[n - 1], acts[n - 1]);
      KeepsSingleFlight(ss[n - 1], acts[n - 1]);
    }
  }

  /** In every run whose deferred finishes find no refresh in flight, in particular when each
      begin is matched by one finish only, at most one handler is fetching. */
  lemma {:induction false} SingleFlightRun(ss: seq<State>, acts: seq<Action>, n: nat)
    requires Run(ss, acts) && n < |ss|
    requires forall i :: 0 <= i < n ==> !Stray(ss[i], acts[i])
    ensures SingleFlight(ss[n])
  {
    SingleFlightPath(ss, acts, n);
  }

  /** At most one handler owns a refresh. */
  ghost predicate Solo(s: State) {
    forall h, g :: Owner(s, h) && Owner(s, g) ==> h == g
  }

  /** The deferred finish of `h` comes next, and no later one strays. */
  ghost predicate FinishesNext(ss: seq<State>, acts: seq<Action>, h: nat) {
    && Path(ss, acts) && acts != [] && acts[0] == DeferredFinish(h)
    && forall i :: 1 <= i < |acts| ==> !Stray(ss[i], acts[i])
  }

  /** In every such continuation at most one handler owns a refresh, all the way. */
  ghost predicate StaysSolo(s: State, h: nat) {
    forall ss, acts, i: nat | FinishesNext(ss, acts, h) && ss[0] == s && i < |ss| :: Solo(ss[i])
  }

  lemma FreshHandler(pcs: map<nat, Pc>) returns (g: nat)
    ensures g !in pcs
  {
    g := AboveAll(pcs.Keys);
    assert g !in pcs.Keys;
  }

  lemma {:induction false} AboveAll(hs: set<nat>) returns (g: nat)
    ensures forall h :: h in hs ==> h < g
  {
    if hs == {} {
      g := 0;
    } else {
      var h :| h in hs;
      var below := AboveAll(hs - {h});
      g := if h < below then below else h + 1;
      forall x | x in hs ensures x < g {
        assert x == h || x in hs - {h};
      }
    }
  }

  /** A second owner beside the first, once the stray finish is followed by the passing of the ttl
      and the arrival of a new request. */
  function AfterStray(s: State, h: nat, g: nat): seq<State>
    requires Enabled(s, DeferredFinish(h)) && g !in s.pcs
  {
    var s1 := Do(s, DeferredFinish(h));
    var s2 := Do(s1, Tick(Expiry(s)));
    var s3 := Do(s2, Arrive(g));
    var s4 := Do(s3, FirstLookup(g));
    [s, s1, s2, s3, s4] + if At(s4, g, Beginning) then [Do(s4, BeginRefresh(g))] else []
  }

  function Expiry(s: State): nat {
    if s.now - s.cache.ts >= TTL then 0 else TTL - (s.now - s.cache.ts)
  }

  function StrayThenNew(s: State, h: nat, g: nat): seq<Action> {
    [DeferredFinish(h), Tick(Expiry(s)), Arrive(g), FirstLookup(g), BeginRefresh(g)]
  }

  lemma SecondOwner(s: State, h: nat, g: nat)
    requires Inv(s) && SingleFlight(s) && Enabled(s, DeferredFinish(h)) && g !in s.pcs && s.cache.inflight
    ensures FinishesNext(AfterStray(s, h, g), StrayThenNew(s, h, g), h) && !Solo(AfterStray(s, h, g)[5])
  {
    var ss := AfterStray(s, h, g);
    assert !Fresh(ss[2].cache, ss[2].now);
    assert At(ss[4], g, Beginning);
    var o :| Owner(s, o);
    assert Owner(ss[5], o) && Owner(ss[5], g) && o != g;
  }

  /** The exact condition under which the deferred finish is harmless: from any single-flight state
      in which it is due, every continuation without a later stray finish keeps at most one owner
      if and only if no refresh is in flight when it runs. */
  lemma StrayIff(s: State, h: nat)
    requires Inv(s) && SingleFlight(s) && Enabled(s, DeferredFinish(h))
    ensures StaysSolo(s, h) <==> !s.cache.inflight
  {
    if s.cache.inflight {
      var g := FreshHandler(s.pcs);
      SecondOwner(s, h, g);
      assert |AfterStray(s, h, g)| == 6;
    } else {
      forall ss, acts, i: nat | FinishesNext(ss, acts, h) && ss[0] == s && i < |ss| ensures Solo(ss[i]) {
        SingleFlightPath(ss, acts, i);
      }
    }
  }

  // ---------------------------------------------------------------- two fetchers

  function TwoState(k: nat): State {
    var empty := INITIAL.cache;
    var first := Cache(None, 0, true, Some(0), multiset{}, 1);
    var stored := first.(data := Some([]));
    var finished := stored.(inflight := false, closed := multiset{0});
    var stale := finished.(data := None);
    var second := Cache(None, 0, true, Some(1), multiset{0}, 2);
    var strayed := second.(inflight := false, closed := multiset{0, 1});
    var third := Cache(None, 0, true, Some(2), multiset{0, 1}, 3);
    match k
    case 0 => INITIAL
    case 1 => State(empty, 0, map[0 := Arrived])
    case 2 => State(empty, 0, map[0 := Beginning])
    case 3 => State(first, 0, map[0 := Fetching])
    case 4 => State(first, 0, map[0 := Listed([])])
    case 5 => State(stored, 0, map[0 := Stored])
    case 6 => State(finished, 0, map[0 := Leaving])
    case 7 => State(stale, 0, map[0 := Leaving])
    case 8 => State(stale, 0, map[0 := Leaving, 1 := Arrived])
    case 9 => State(stale, 0, map[0 := Leaving, 1 := Beginning])
    case 10 => State(second, 0, map[0 := Leaving, 1 := Fetching])
    case 11 => State(strayed, 0, map[1 := Fetching])
    case 12 => State(strayed, 0, map[1 := Fetching, 2 := Arrived])
    case 13 => State(strayed, 0, map[1 := Fetching, 2 := Beginning])
    case _ => State(third, 0, map[1 := Fetching, 2 := Fetching])
  }

  function TwoAction(k: nat): Action {
    match k
    case 0 => Arrive(0)
    case 1 => FirstLookup(0)
    case 2 => BeginRefresh(0)
    case 3 => List(0, [])
    case 4 => Store(0)
    case 5 => FirstFinish(0)
    case 6 => Invalidate
    case 7 => Arrive(1)
    case 8 => FirstLookup(1)
    case 9 => BeginRefresh(1)
    case 10 => DeferredFinish(0)
    case 11 => Arrive(2)
    case 12 => FirstLookup(2)
    case _ => BeginRefresh(2)
  }

  predicate TwoStep(k: nat) {
    Enabled(TwoState(k), TwoAction(k)) && Do(TwoState(k), TwoAction(k)) == TwoState(k + 1)
  }

  lemma FirstTwoSteps()
    ensures TwoStep(0) && TwoStep(1) && TwoStep(2) && TwoStep(3)
  {
    assert Do(TwoState(0), TwoAction(0)).pcs == TwoState(1).pcs;
    assert Do(TwoState(1), TwoAction(1)).pcs == TwoState(2).pcs;
    assert Do(TwoState(2), TwoAction(2)).pcs == TwoState(3).pcs;
    assert Do(TwoState(3), TwoAction(3)).pcs == TwoState(4).pcs;
  }

  lemma StoreTwoSteps()
    ensures TwoStep(4) && TwoStep(5) && TwoStep(6)
  {
    assert Do(TwoState(4), TwoAction(4)).pcs == TwoState(5).pcs;
    assert Do(TwoState(5), TwoAction(5)).pcs == TwoState(6).pcs;
    assert Do(TwoState(6), TwoAction(6)).pcs == TwoState(7).pcs;
  }

  lemma SecondTwoSteps()
    ensures TwoStep(7) && TwoStep(8) && TwoStep(9)
  {
    assert Do(TwoState(7), TwoAction(7)).pcs == TwoState(8).pcs;
    assert Do(TwoState(8), TwoAction(8)).pcs == TwoState(9).pcs;
    assert Do(TwoState(9), TwoAction(9)).pcs == TwoState(10).pcs;
  }

  lemma StrayTwoSteps()
    ensures TwoStep(10) && TwoStep(11)
  {
    assert Do(TwoState(10), TwoAction(10)).pcs == TwoState(11).pcs;
    assert multiset{0} + multiset{1} == multiset{0, 1};
    assert Do(TwoState(11), TwoAction(11)).pcs == TwoState(12).pcs;
  }

  lemma LastTwoSteps()
    ensures TwoStep(12) && TwoStep(13)
  {
    assert Do(TwoState(12), TwoAction(12)).pcs == TwoState(13).pcs;
    assert Do(TwoState(13), TwoAction(13)).pcs == TwoState(14).pcs;
  }

  lemma TwoSteps(k: nat)
    requires k < 14
    ensures TwoStep(k)
  {
    FirstTwoSteps();
    StoreTwoSteps();
    SecondTwoSteps();
    StrayTwoSteps();
    LastTwoSteps();
  }

  /** The failure: handler 0 stores and finishes, the list is invalidated, handler 1 begins, the
      deferred finish of handler 0 ends handler 1's refresh, and handler 2 fetches beside it. */
  lemma TwoFetchers() returns (ss: seq<State>, acts: seq<Action>)
    ensures Run(ss, acts)
    ensures At(ss[|acts|], 1, Fetching) && At(ss[|acts|], 2, Fetching)
  {
    ss := seq(15, k requires 0 <= k < 15 => TwoState(k));
    acts := seq(14, k requires 0 <= k < 14 => TwoAction(k));
    forall k | 0 <= k < 14 ensures Enabled(ss[k], acts[k]) && ss[k + 1] == Do(ss[k], acts[k]) {
      TwoSteps(k);
    }
    assert ss[14] == TwoState(14);
  }

  // ---------------------------------------------------------------- freshness

  predicate Writes(a: Action) {
    a.Store? || a.Invalidate?
  }

  /** Of the first `n` actions, `i` is the last that writes the cached value. */
  predicate LastWrite(acts: seq<Action>, i: int, n: nat) {
    0 <= i < n <= |acts| && Writes(acts[i]) && forall j :: i < j < n ==> !Writes(acts[j])
  }

  /** What the store at step `i` puts in the cache. */
  function StoredImages(ss: seq<State>, acts: seq<Action>, i: nat): Images
    requires i < |acts| < |ss| && Enabled(ss[i], acts[i]) && acts[i].Store?
  {
    ss[i].pcs[acts[i].h].images
  }

  /** What the cache holds after the last write, if there was one. */
  ghost predicate Holds(ss: seq<State>, acts: seq<Action>, i: nat, c: Cache)
    requires i < |acts| < |ss| && Enabled(ss[i], acts[i])
  {
    if acts[i].Store? then c.data == Some(StoredImages(ss, acts, i)) && c.ts == ss[i].now else c.data.None?
  }

  lemma WriteHolds(ss: seq<State>, acts: seq<Action>, i: nat)
    requires Run(ss, acts) && i < |acts|
    ensures Enabled(ss[i], acts[i])
    ensures Writes(acts[i]) ==> Holds(ss, acts, i, ss[i + 1].cache)
    ensures !Writes(acts[i]) ==> ss[i + 1].cache.data == ss[i].cache.data && ss[i + 1].cache.ts == ss[i].cache.ts
  {
    assert Enabled(ss[i], acts[i]) && ss[i + 1] == Do(ss[i], acts[i]);
  }

  /** The last write before step `n`, if any. */
  function LastWriteOf(acts: seq<Action>, n: nat): (r: Option<nat>)
    requires n <= |acts|
    ensures r.Some? ==> LastWrite(acts, r.value, n)
    ensures r.None? ==> forall j :: 0 <= j < n ==> !Writes(acts[j])
  {
    if n == 0 then None else if Writes(acts[n - 1]) then Some(n - 1) else LastWriteOf(acts, n - 1)
  }

  lemma LastWriteUnique(acts: seq<Action>, i: nat, n: nat)
    requires n <= |acts| && LastWrite(acts, i, n)
    ensures LastWriteOf(acts, n) == Some(i)
  {
    var r := LastWriteOf(acts, n);
    assert r.Some?;
    if r.value < i {
      assert false;
    }
  }

  /** The cached value is that of the last write, stamped with the time of that action. */
  lemma {:induction false} DataIsLastWrite(ss: seq<State>, acts: seq<Action>, n: nat)
    requires Run(ss, acts) && n < |ss|
    ensures var r := LastWriteOf(acts, n);
            if r.None? then ss[n].cache.data.None?
            else Enabled(ss[r.value], acts[r.value]) && Holds(ss, acts, r.value, ss[n].cache)
  {
    if n > 0 {
      DataIsLastWrite(ss, acts, n - 1);
      WriteHolds(ss, acts, n - 1);
    }
  }

  /** In every run, a lookup returns a value exactly when that value is the one most recently
      stored, less than the ttl ago, with no invalidation since. */
  lemma HitIff(ss: seq<State>, acts: seq<Action>, n: nat, images: Images)
    requires Run(ss, acts) && n < |ss|
    ensures Get(ss[n].cache, ss[n].now) == Some(images)
       <==> exists i :: && LastWrite(acts, i, n) && acts[i].Store? && StoredImages(ss, acts, i) == images
                        && ss[n].now - ss[i].now < TTL
  {
    DataIsLastWrite(ss, acts, n);
    var r := LastWriteOf(acts, n);
    if Get(ss[n].cache, ss[n].now) == Some(images) {
      assert LastWrite(acts, r.value, n) && acts[r.value].Store?;
    }
    if i :| && LastWrite(acts, i, n) && acts[i].Store? && StoredImages(ss, acts, i) == images
            && ss[n].now - ss[i].now < TTL
    {
      LastWriteUnique(acts, i, n);
    }
  }

  /** Step `j` is the listing of what handler `h` holds at step `i`. */
  ghost predicate ListedAt(ss: seq<State>, acts: seq<Action>, h: nat, images: Images, j: nat, i: nat)
    requires |ss| == |acts| + 1
  {
    && j < i < |ss| && acts[j] == List(h, images)
    && forall t :: j < t <= i ==> At(ss[t], h, Listed(images))
  }

  lemma {:induction false} ListedBefore(ss: seq<State>, acts: seq<Action>, i: nat, h: nat) returns (j: nat)
    requires Run(ss, acts) && i < |ss| && h in ss[i].pcs && ss[i].pcs[h].Listed?
    ensures ListedAt(ss, acts, h, ss[i].pcs[h].images, j, i)
  {
    assert i > 0;
    if acts[i - 1].List? && acts[i - 1].h == h {
      j := i - 1;
    } else {
      j := ListedBefore(ss, acts, i - 1, h);
    }
  }

  /** The age of a hit: its images were listed by Docker at some step `j` and stored by the same
      handler at a later step `i`.  They predate an invalidation if and only if one fell between
      the two; none has come since the store. */
  lemma HitAge(ss: seq<State>, acts: seq<Action>, n: nat, images: Images) returns (j: nat, i: nat)
    requires Run(ss, acts) && n < |ss| && Get(ss[n].cache, ss[n].now) == Some(images)
    ensures LastWrite(acts, i, n) && acts[i].Store? && ListedAt(ss, acts, acts[i].h, images, j, i)
    ensures ss[n].now - ss[i].now < TTL
    ensures (exists v :: j < v < n && acts[v].Invalidate?) <==> exists v :: j < v < i && acts[v].Invalidate?
  {
    HitIff(ss, acts, n, images);
    var k :| LastWrite(acts, k, n) && acts[k].Store? && StoredImages(ss, acts, k) == images
             && ss[n].now - ss[k].now < TTL;
    i := k;
    j := ListedBefore(ss, acts, i, acts[i].h);
    assert forall v :: i < v < n ==> !Writes(acts[v]);
  }

  function StaleState(k: nat): State {
    var begun := Cache(None, 0, true, Some(0), multiset{}, 1);
    match k
    case 0 => INITIAL
    case 1 => State(INITIAL.cache, 0, map[0 := Arrived])
    case 2 => State(INITIAL.cache, 0, map[0 := Beginning])
    case 3 => State(begun, 0, map[0 := Fetching])
    case 4 => State(begun, 0, map[0 := Listed([])])
    case 5 => State(begun, 0, map[0 := Listed([])])
    case _ => State(begun.(data := Some([])), 0, map[0 := Stored])
  }

  function StaleAction(k: nat): Action {
    match k
    case 0 => Arrive(0)
    case 1 => FirstLookup(0)
    case 2 => BeginRefresh(0)
    case 3 => List(0, [])
    case 4 => Invalidate
    case _ => Store(0)
  }

  predicate StaleStep(k: nat) {
    Enabled(StaleState(k), StaleAction(k)) && Do(StaleState(k), StaleAction(k)) == StaleState(k + 1)
  }

  lemma FirstStaleSteps()
    ensures StaleStep(0) && StaleStep(1) && StaleStep(2)
  {
    assert Do(StaleState(0), StaleAction(0)).pcs == StaleState(1).pcs;
    assert Do(StaleState(1), StaleAction(1)).pcs == StaleState(2).pcs;
    assert Do(StaleState(2), StaleAction(2)).pcs == StaleState(3).pcs;
  }

  lemma LastStaleSteps()
    ensures StaleStep(3) && StaleStep(4) && StaleStep(5)
  {
    assert Do(StaleState(3), StaleAction(3)).pcs == StaleState(4).pcs;
    assert Do(StaleState(5), StaleAction(5)).pcs == StaleState(6).pcs;
  }

  lemma StaleSteps(k: nat)
    requires k < 6
    ensures StaleStep(k)
  {
    FirstStaleSteps();
    LastStaleSteps();
  }

  /** It happens: a list made before an invalidation is stored after it and then served. */
  lemma StaleHit() returns (ss: seq<State>, acts: seq<Action>)
    ensures Run(ss, acts) && |acts| == 6 && acts[3] == List(0, []) && acts[4] == Invalidate
    ensures Get(ss[6].cache, ss[6].now) == Some([])
  {
    ss := seq(7, k requires 0 <= k < 7 => StaleState(k));
    acts := seq(6, k requires 0 <= k < 6 => StaleAction(k));
    forall k | 0 <= k < 6 ensures Enabled(ss[k], acts[k]) && ss[k + 1] == Do(ss[k], acts[k]) {
      StaleSteps(k);
    }
  }
}
