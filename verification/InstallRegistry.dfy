/** The registry of running installs and the delete that waits on it
    (daemon/main.go:262-304, 1005-1007, 1464-1477).

    A channel is a number; `closed` counts how often each was closed. */
module InstallRegistry {
  import opened Prelude

  class Registry {
    var installs: map<string, nat>
    var nextChannel: nat
    ghost var closed: multiset<nat>

    /** Every registered channel is open, and none was closed twice. */
    ghost predicate Valid()
      reads this
    {
      && (forall u :: u in installs ==> installs[u] < nextChannel && installs[u] !in closed)
      && (forall u, v :: u in installs && v in installs && u != v ==> installs[u] != installs[v])
      && (forall ch :: ch in closed ==> ch < nextChannel && closed[ch] == 1)
    }

    constructor ()
      ensures Valid() && installs == map[] && closed == multiset{} && nextChannel == 0
    {
      installs, nextChannel, closed := map[], 0, multiset{};
    }

    method InstallInFlight(uuid: string) returns (r: bool)
      ensures r <==> uuid in installs
    {
      r := uuid in installs;
    }

    /** `registerInstall`: a new open channel replaces whatever was registered for the uuid. */
    method Register(uuid: string) returns (handle: Handle)
      requires Valid()
      modifies this`installs, this`nextChannel
      ensures Valid() && fresh(handle) && handle.registry == this && handle.uuid == uuid && !handle.fired
      ensures handle.done == old(nextChannel) && handle.Open()
      ensures installs == old(installs)[uuid := handle.done] && nextChannel == old(nextChannel) + 1
    {
      var done := nextChannel;
      nextChannel := nextChannel + 1;
      installs := installs[uuid := done];
      handle := new Handle(this, uuid, done);
    }
  }

  /** The finishing function handed to an install, with its `sync.Once`. */
  class Handle {
    const registry: Registry
    const uuid: string
    const done: nat
    var fired: bool

    constructor (registry: Registry, uuid: string, done: nat)
      ensures this.registry == registry && this.uuid == uuid && this.done == done && !fired
    {
      this.registry, this.uuid, this.done := registry, uuid, done;
      fired := false;
    }

    /** The channel is open and registered, if at all, under this uuid. */
    ghost predicate Open()
      reads this, registry
    {
      && done < registry.nextChannel && done !in registry.closed
      && forall u :: u in registry.installs && registry.installs[u] == done ==> u == uuid
    }

    /** The first call removes the entry if it is still this install's and closes the channel;
        later calls do nothing. */
    method Finish()
      requires registry.Valid() && (!fired ==> Open())
      modifies this`fired, registry`installs, registry`closed
      ensures registry.Valid() && fired
      ensures old(fired) ==> registry.installs == old(registry.installs) && registry.closed == old(registry.closed)
      ensures !old(fired) ==> registry.closed == old(registry.closed) + multiset{done} && registry.closed[done] == 1
      ensures !old(fired) ==> forall u :: u in old(registry.installs) && old(registry.installs)[u] != done ==>
                u in registry.installs && registry.installs[u] == old(registry.installs)[u]
      ensures !old(fired) ==> forall u :: u in registry.installs ==>
                u in old(registry.installs) && registry.installs[u] == old(registry.installs)[u] != done
    {
      if !fired {
        fired := true;
        if uuid in registry.installs && registry.installs[uuid] == done {
          registry.installs := registry.installs - {uuid};
        }
        registry.closed := registry.closed + multiset{done};
      }
    }
  }

  // ---------------------------------------------------------------- the protocol

  /** An install goroutine: still working, or past the locked half of its finish and about to
      close its channel.  When it has closed it is gone. */
  datatype Worker = Worker(uuid: string, done: nat, working: bool)

  /** A delete request: about to look up an install, waiting on its channel, about to remove the
      container the second time, or through. */
  datatype DeletePc = LookingUp | Waiting(done: nat) | Removing | Deleted
  datatype Delete = Delete(uuid: string, pc: DeletePc)

  datatype State = State(installs: map<string, nat>, closed: multiset<nat>, made: nat,
                         workers: map<nat, Worker>, deletes: map<nat, Delete>, containers: set<string>)

  datatype Action =
    | Start(w: nat, uuid: string)         // an install registers
    | Create(w: nat)                      // it creates its container
    | Discard(w: nat)                     // it removes the container of its uuid
    | Unmap(w: nat)                       // the locked half of its finish
    | Close(w: nat)                       // the close that follows
    | FirstRemove(d: nat, uuid: string)   // a delete arrives and removes the container
    | Lookup(d: nat)                      // waitInstallDone reads the registry
    | Wake(d: nat)                        // its channel is closed
    | TimeOut(d: nat)                     // 30 seconds have passed
    | SecondRemove(d: nat)

  predicate Enabled(s: State, a: Action) {
    match a
    case Start(w, _) => w !in s.workers
    case Create(w) => w in s.workers && s.workers[w].working
    case Discard(w) => w in s.workers && s.workers[w].working
    case Unmap(w) => w in s.workers && s.workers[w].working
    case Close(w) => w in s.workers && !s.workers[w].working
    case FirstRemove(d, _) => d !in s.deletes
    case Lookup(d) => d in s.deletes && s.deletes[d].pc == LookingUp
    case Wake(d) => d in s.deletes && s.deletes[d].pc.Waiting? && s.deletes[d].pc.done in s.closed
    case TimeOut(d) => d in s.deletes && s.deletes[d].pc.Waiting?
    case SecondRemove(d) => d in s.deletes && s.deletes[d].pc == Removing
  }

  predicate At(s: State, d: nat, pc: DeletePc) {
    d in s.deletes && s.deletes[d].pc == pc
  }

  function Goto(s: State, d: nat, pc: DeletePc): State
    requires d in s.deletes
  {
    s.(deletes := s.deletes[d := s.deletes[d].(pc := pc)])
  }

  function Do(s: State, a: Action): State
    requires Enabled(s, a)
  {
    match a
    case Start(w, uuid) =>
      s.(installs := s.installs[uuid := s.made], made := s.made + 1,
         workers := s.workers[w := Worker(uuid, s.made, true)])
    case Create(w) => s.(containers := s.containers + {s.workers[w].uuid})
    case Discard(w) => s.(containers := s.containers - {s.workers[w].uuid})
    case Unmap(w) =>
      var x := s.workers[w];
      s.(installs := if x.uuid in s.installs && s.installs[x.uuid] == x.done then s.installs - {x.uuid} else s.installs,
         workers := s.workers[w := x.(working := false)])
    case Close(w) =>
      s.(closed := s.closed + multiset{s.workers[w].done}, workers := s.workers - {w})
    case FirstRemove(d, uuid) =>
      s.(containers := s.containers - {uuid}, deletes := s.deletes[d := Delete(uuid, LookingUp)])
    case Lookup(d) =>
      var uuid := s.deletes[d].uuid;
      Goto(s, d, if uuid in s.installs then Waiting(s.installs[uuid]) else Removing)
    case Wake(d) => Goto(s, d, Removing)
    case TimeOut(d) => Goto(s, d, Removing)
    case SecondRemove(d) => Goto(s, d, Deleted).(containers := s.containers - {s.deletes[d].uuid})
  }

  const INITIAL := State(map[], multiset{}, 0, map[], map[], {})

  /** Steps from `ss[0]` on. */
  ghost predicate Path(ss: seq<State>, acts: seq<Action>) {
    && |ss| == |acts| + 1
    && forall i :: 0 <= i < |acts| ==> Enabled(ss[i], acts[i]) && ss[i + 1] == Do(ss[i], acts[i])
  }

  ghost predicate Run(ss: seq<State>, acts: seq<Action>) {
    Path(ss, acts) && ss[0] == INITIAL
  }

  // ---------------------------------------------------------------- channels

  /** The channel of a live install: unused by any other and open. */
  ghost predicate LiveChannels(s: State) {
    && (forall w :: w in s.workers ==> s.workers[w].done < s.made && s.workers[w].done !in s.closed)
    && (forall w, x :: w in s.workers && x in s.workers && w != x ==> s.workers[w].done != s.workers[x].done)
  }

  /** A registered channel belongs to an install of that uuid that is still working. */
  ghost predicate Registered(s: State) {
    forall u :: u in s.installs ==>
      exists w :: w in s.workers && s.workers[w] == Worker(u, s.installs[u], true)
  }

  ghost predicate ClosedOnce(s: State) {
    forall ch :: ch in s.closed ==> ch < s.made && s.closed[ch] == 1
  }

  ghost predicate Inv(s: State) {
    LiveChannels(s) && Registered(s) && ClosedOnce(s)
  }

  lemma KeepsRegistered(s: State, a: Action)
    requires Inv(s) && Enabled(s, a)
    ensures Registered(Do(s, a))
  {
    var t := Do(s, a);
    forall u | u in t.installs ensures exists w :: w in t.workers && t.workers[w] == Worker(u, t.installs[u], true) {
      if a.Start? && a.uuid == u {
        assert t.workers[a.w] == Worker(u, t.installs[u], true);
      } else {
        assert u in s.installs && t.installs[u] == s.installs[u];
        var w :| w in s.workers && s.workers[w] == Worker(u, s.installs[u], true);
        assert w in t.workers && t.workers[w] == s.workers[w];
      }
    }
  }

  lemma KeepsLiveChannels(s: State, a: Action)
    requires LiveChannels(s) && ClosedOnce(s) && Enabled(s, a)
    ensures LiveChannels(Do(s, a))
  {
  }

  lemma KeepsClosedOnce(s: State, a: Action)
    requires LiveChannels(s) && ClosedOnce(s) && Enabled(s, a)
    ensures ClosedOnce(Do(s, a))
  {
  }

  lemma KeepsInv(s: State, a: Action)
    requires Inv(s) && Enabled(s, a)
    ensures Inv(Do(s, a))
  {
    KeepsLiveChannels(s, a);
    KeepsClosedOnce(s, a);
    KeepsRegistered(s, a);
  }

  lemma {:induction false} RunInv(ss: seq<State>, acts: seq<Action>, n: nat)
    requires Run(ss, acts) && n < |ss|
    ensures Inv(ss[n])
  {
    if n > 0 {
      RunInv(ss, acts, n - 1);
      KeepsInv(ss[n - 1], acts[n - 1]);
    }
  }

  /** In every run each registered channel is open and no channel is closed twice. */
  lemma RegisteredOpen(ss: seq<State>, acts: seq<Action>, n: nat)
    requires Run(ss, acts) && n < |ss|
    ensures forall u :: u in ss[n].installs ==> ss[n].installs[u] !in ss[n].closed
    ensures forall ch :: ss[n].closed[ch] <= 1
  {
    RunInv(ss, acts, n);
    var s := ss[n];
    forall u | u in s.installs ensures s.installs[u] !in s.closed {
      var w :| w in s.workers && s.workers[w] == Worker(u, s.installs[u], true);
    }
  }

  /** A finishing install takes out its own entry and no other, in particular not the entry of a
      newer install of the same uuid. */
  lemma FinishKeepsOthers(ss: seq<State>, acts: seq<Action>, n: nat, w: nat)
    requires Run(ss, acts) && n < |ss| && Enabled(ss[n], Unmap(w))
    ensures var s, t := ss[n], Do(ss[n], Unmap(w));
            forall u :: u in s.installs ==>
              if s.installs[u] == s.workers[w].done then u !in t.installs
              else u in t.installs && t.installs[u] == s.installs[u]
  {
    RunInv(ss, acts, n);
    var s := ss[n];
    forall u | u in s.installs && s.installs[u] == s.workers[w].done ensures u == s.workers[w].uuid {
      var x :| x in s.workers && s.workers[x] == Worker(u, s.installs[u], true);
      assert x == w;
    }
  }

  // ---------------------------------------------------------------- containers

  /** The step creates the container of `uuid`. */
  predicate Puts(s: State, a: Action, uuid: string) {
    a.Create? && a.w in s.workers && s.workers[a.w].uuid == uuid
  }

  /** The step removes it. */
  predicate Takes(s: State, a: Action, uuid: string) {
    || (a.Discard? && a.w in s.workers && s.workers[a.w].uuid == uuid)
    || (a.FirstRemove? && a.uuid == uuid)
    || (a.SecondRemove? && a.d in s.deletes && s.deletes[a.d].uuid == uuid)
  }

  lemma ContainerStep(ss: seq<State>, acts: seq<Action>, n: nat, uuid: string)
    requires Run(ss, acts) && n < |acts|
    ensures uuid in ss[n + 1].containers
       <==> Puts(ss[n], acts[n], uuid) || (uuid in ss[n].containers && !Takes(ss[n], acts[n], uuid))
  {
    assert Enabled(ss[n], acts[n]) && ss[n + 1] == Do(ss[n], acts[n]);
  }

  /** Some step before `n` created the container, and none since has removed it. */
  ghost predicate Standing(ss: seq<State>, acts: seq<Action>, n: nat, uuid: string)
    requires n <= |acts| < |ss|
  {
    n > 0 && (Puts(ss[n - 1], acts[n - 1], uuid)
              || (Standing(ss, acts, n - 1, uuid) && !Takes(ss[n - 1], acts[n - 1], uuid)))
  }

  /** Over every run a container is there if and only if an install created it and no install and no
      delete of its uuid has removed it since. */
  lemma {:induction false} ContainerIff(ss: seq<State>, acts: seq<Action>, n: nat, uuid: string)
    requires Run(ss, acts) && n < |ss|
    ensures uuid in ss[n].containers <==> Standing(ss, acts, n, uuid)
  {
    if n > 0 {
      ContainerIff(ss, acts, n - 1, uuid);
      ContainerStep(ss, acts, n - 1, uuid);
    }
  }

  // ---------------------------------------------------------------- deleting

  ghost predicate Installing(s: State, uuid: string) {
    exists w :: w in s.workers && s.workers[w].working && s.workers[w].uuid == uuid
  }

  /** What a waiting delete relies on: the installs of its uuid still working are those of the
      channel it waits on; once past the wait there are none, and once through no container. */
  ghost predicate Guarded(s: State, d: nat) {
    && d in s.deletes && s.deletes[d].pc != LookingUp
    && var uuid, pc := s.deletes[d].uuid, s.deletes[d].pc;
       && (pc.Waiting? ==> forall w | w in s.workers && s.workers[w].working && s.workers[w].uuid == uuid ::
                             s.workers[w].done == pc.done)
       && (!pc.Waiting? ==> !Installing(s, uuid))
       && (pc == Deleted ==> uuid !in s.containers)
  }

  lemma KeepsGuarded(s: State, a: Action, d: nat)
    requires Inv(s) && Guarded(s, d) && Enabled(s, a)
    requires a != TimeOut(d) && !(a.Start? && a.uuid == s.deletes[d].uuid)
    ensures Guarded(Do(s, a), d) && Do(s, a).deletes[d].uuid == s.deletes[d].uuid
  {
    var t := Do(s, a);
    var uuid := s.deletes[d].uuid;
    assert forall w :: w in t.workers && t.workers[w].working && t.workers[w].uuid == uuid ==>
             w in s.workers && s.workers[w] == t.workers[w];
  }

  /** When a delete looks up the registry, the only install of its uuid still working, if any, is
      the registered one. */
  ghost predicate OnlyRegistered(s: State, uuid: string) {
    forall w :: w in s.workers && s.workers[w].working && s.workers[w].uuid == uuid ==>
      uuid in s.installs && s.workers[w].done == s.installs[uuid]
  }

  lemma LookupGuards(s: State, d: nat)
    requires Enabled(s, Lookup(d)) && OnlyRegistered(s, s.deletes[d].uuid)
    ensures Guarded(Do(s, Lookup(d)), d) && Do(s, Lookup(d)).deletes[d].uuid == s.deletes[d].uuid
  {
  }

  /** The delete's course from its lookup on: it does not time out and no install of its uuid starts. */
  ghost predicate Undisturbed(acts: seq<Action>, d: nat, uuid: string) {
    && acts != [] && acts[0] == Lookup(d)
    && forall j :: 1 <= j < |acts| ==> acts[j] != TimeOut(d) && !(acts[j].Start? && acts[j].uuid == uuid)
  }

  lemma {:induction false} GuardedPath(ss: seq<State>, acts: seq<Action>, d: nat, n: nat)
    requires Path(ss, acts) && Inv(ss[0]) && 1 <= n < |ss|
    requires Enabled(ss[0], Lookup(d)) && OnlyRegistered(ss[0], ss[0].deletes[d].uuid)
    requires Undisturbed(acts, d, ss[0].deletes[d].uuid)
    ensures Inv(ss[n]) && Guarded(ss[n], d) && ss[n].deletes[d].uuid == ss[0].deletes[d].uuid
  {
    if n == 1 {
      KeepsInv(ss[0], acts[0]);
      LookupGuards(ss[0], d);
    } else {
      GuardedPath(ss, acts, d, n - 1);
      KeepsInv(ss[n - 1], acts[n - 1]);
      KeepsGuarded(ss[n - 1], acts[n - 1], d);
    }
  }

  /** A delete that does not time out, looked up the registry when the only install of its uuid
      still working was the registered one, and is not overtaken by a new install of that uuid,
      ends with no container of that uuid, and none appears later. */
  lemma DeleteLeavesNothing(ss: seq<State>, acts: seq<Action>, d: nat)
    requires Path(ss, acts) && Inv(ss[0]) && Enabled(ss[0], Lookup(d)) && Undisturbed(acts, d, ss[0].deletes[d].uuid)
    requires OnlyRegistered(ss[0], ss[0].deletes[d].uuid)
    requires At(ss[|acts|], d, Deleted)
    ensures ss[0].deletes[d].uuid !in ss[|acts|].containers
  {
    GuardedPath(ss, acts, d, |acts|);
  }

  /** Every undisturbed course of the delete that gets through leaves no container of its uuid. */
  ghost predicate AlwaysClean(s: State, d: nat)
    requires d in s.deletes
  {
    forall ss: seq<State>, acts: seq<Action> |
      Path(ss, acts) && ss[0] == s && Undisturbed(acts, d, s.deletes[d].uuid) && At(ss[|acts|], d, Deleted) ::
        s.deletes[d].uuid !in ss[|acts|].containers
  }

  /** `acts` can be taken one after the other from `s` and lead to `t`. */
  ghost predicate Leads(s: State, acts: seq<Action>, t: State) {
    exists ss :: Path(ss, acts) && ss[0] == s && ss[|acts|] == t
  }

  lemma LeadsOn(s: State, acts: seq<Action>, t: State, a: Action)
    requires Leads(s, acts, t) && Enabled(t, a)
    ensures Leads(s, acts + [a], Do(t, a))
  {
    var ss :| Path(ss, acts) && ss[0] == s && ss[|acts|] == t;
    assert Path(ss + [Do(t, a)], acts + [a]);
  }

  lemma LeadsHere(s: State)
    ensures Leads(s, [], s)
  {
    assert Path([s], []);
  }

  lemma NotClean(s: State, acts: seq<Action>, t: State, d: nat)
    requires Leads(s, acts, t) && d in s.deletes && Undisturbed(acts, d, s.deletes[d].uuid)
    requires At(t, d, Deleted) && s.deletes[d].uuid in t.containers
    ensures !AlwaysClean(s, d)
  {
  }

  /** A delete past its wait, with an install of its uuid still working: the delete goes through,
      and the install then creates the container again. */
  lemma Recreated(s: State, acts: seq<Action>, t: State, d: nat, w: nat)
    requires Leads(s, acts, t) && d in s.deletes && Undisturbed(acts, d, s.deletes[d].uuid)
    requires At(t, d, Removing) && t.deletes[d].uuid == s.deletes[d].uuid
    requires w in t.workers && t.workers[w].working && t.workers[w].uuid == s.deletes[d].uuid
    ensures !AlwaysClean(s, d)
  {
    var u := Do(t, SecondRemove(d));
    LeadsOn(s, acts, t, SecondRemove(d));
    LeadsOn(s, acts + [SecondRemove(d)], u, Create(w));
    NotClean(s, acts + [SecondRemove(d)] + [Create(w)], Do(u, Create(w)), d);
  }

  /** The exact condition, decided when the delete looks up the registry: it is sure to leave no
      container if and only if no install of its uuid but the registered one is still working. */
  lemma DeleteCleanIff(s: State, d: nat)
    requires Inv(s) && Enabled(s, Lookup(d))
    ensures AlwaysClean(s, d) <==> OnlyRegistered(s, s.deletes[d].uuid)
  {
    var uuid := s.deletes[d].uuid;
    if OnlyRegistered(s, uuid) {
      forall ss: seq<State>, acts: seq<Action> |
        Path(ss, acts) && ss[0] == s && Undisturbed(acts, d, uuid) && At(ss[|acts|], d, Deleted)
        ensures uuid !in ss[|acts|].containers
      {
        DeleteLeavesNothing(ss, acts, d);
      }
    } else {
      var w :| w in s.workers && s.workers[w].working && s.workers[w].uuid == uuid
               && !(uuid in s.installs && s.workers[w].done == s.installs[uuid]);
      LeadsHere(s);
      LeadsOn(s, [], s, Lookup(d));
      var t := Do(s, Lookup(d));
      if uuid in s.installs {
        WaitedFor(s, d, w);
      } else {
        Recreated(s, [] + [Lookup(d)], t, d, w);
      }
    }
  }

  /** The delete waits on the registered install only; that one finishes, the other goes on. */
  lemma WaitedFor(s: State, d: nat, w: nat)
    requires Inv(s) && Enabled(s, Lookup(d)) && s.deletes[d].uuid in s.installs
    requires w in s.workers && s.workers[w].working && s.workers[w].uuid == s.deletes[d].uuid
    requires s.workers[w].done != s.installs[s.deletes[d].uuid]
    ensures !AlwaysClean(s, d)
  {
    var uuid := s.deletes[d].uuid;
    var x :| x in s.workers && s.workers[x] == Worker(uuid, s.installs[uuid], true);
    LeadsHere(s);
    LeadsOn(s, [], s, Lookup(d));
    var t := OtherFinishes(Do(s, Lookup(d)), d, w, x);
    LeadsFurther(s, [] + [Lookup(d)], Do(s, Lookup(d)), x, d, t);
    var acts := [] + [Lookup(d)] + [Unmap(x)] + [Close(x)] + [Wake(d)];
    assert acts == [Lookup(d), Unmap(x), Close(x), Wake(d)];
    Recreated(s, acts, t, d, w);
  }

  /** Install `x` finishes and the delete waiting on it wakes. */
  ghost predicate Finishes(s: State, x: nat, d: nat, t: State) {
    && Enabled(s, Unmap(x)) && Enabled(Do(s, Unmap(x)), Close(x))
    && Enabled(Do(Do(s, Unmap(x)), Close(x)), Wake(d))
    && t == Do(Do(Do(s, Unmap(x)), Close(x)), Wake(d))
  }

  lemma OtherFinishes(s: State, d: nat, w: nat, x: nat) returns (t: State)
    requires d in s.deletes && w in s.workers && x in s.workers && w != x && s.workers[x].working
    requires s.deletes[d].pc == Waiting(s.workers[x].done)
    ensures Finishes(s, x, d, t) && At(t, d, Removing) && t.deletes[d].uuid == s.deletes[d].uuid
    ensures w in t.workers && t.workers[w] == s.workers[w]
  {
    var t1 := Do(s, Unmap(x));
    var t2 := Do(t1, Close(x));
    assert t2.deletes == s.deletes && s.workers[x].done in t2.closed;
    t := Do(t2, Wake(d));
  }

  lemma LeadsFurther(s: State, acts: seq<Action>, u: State, x: nat, d: nat, t: State)
    requires Leads(s, acts, u) && Finishes(u, x, d, t)
    ensures Leads(s, acts + [Unmap(x)] + [Close(x)] + [Wake(d)], t)
  {
    LeadsOn(s, acts, u, Unmap(x));
    LeadsOn(s, acts + [Unmap(x)], Do(u, Unmap(x)), Close(x));
    LeadsOn(s, acts + [Unmap(x)] + [Close(x)], Do(Do(u, Unmap(x)), Close(x)), Wake(d));
  }

  function OverlapState(k: nat): State {
    var first := Worker("u", 0, true);
    match k
    case 0 => INITIAL
    case 1 => State(map["u" := 0], multiset{}, 1, map[0 := first], map[], {})
    case 2 => State(map["u" := 1], multiset{}, 2, map[0 := first, 1 := Worker("u", 1, true)], map[], {})
    case 3 => State(map[], multiset{}, 2, map[0 := first, 1 := Worker("u", 1, false)], map[], {})
    case 4 => State(map[], multiset{1}, 2, map[0 := first], map[], {})
    case 5 => State(map[], multiset{1}, 2, map[0 := first], map[0 := Delete("u", LookingUp)], {})
    case _ => State(map[], multiset{1}, 2, map[0 := first], map[0 := Delete("u", Removing)], {})
  }

  function OverlapAction(k: nat): Action {
    match k
    case 0 => Start(0, "u")
    case 1 => Start(1, "u")
    case 2 => Unmap(1)
    case 3 => Close(1)
    case 4 => FirstRemove(0, "u")
    case _ => Lookup(0)
  }

  predicate OverlapStep(k: nat) {
    Enabled(OverlapState(k), OverlapAction(k)) && Do(OverlapState(k), OverlapAction(k)) == OverlapState(k + 1)
  }

  lemma FirstOverlapSteps()
    ensures OverlapStep(0) && OverlapStep(1) && OverlapStep(2)
  {
    assert Do(OverlapState(0), OverlapAction(0)).workers == OverlapState(1).workers;
    assert Do(OverlapState(1), OverlapAction(1)).workers == OverlapState(2).workers;
    assert Do(OverlapState(1), OverlapAction(1)).installs == OverlapState(2).installs;
    assert Do(OverlapState(2), OverlapAction(2)).workers == OverlapState(3).workers;
    assert Do(OverlapState(2), OverlapAction(2)).installs == OverlapState(3).installs;
  }

  lemma LastOverlapSteps()
    ensures OverlapStep(3) && OverlapStep(4) && OverlapStep(5)
  {
    assert Do(OverlapState(3), OverlapAction(3)).workers == OverlapState(4).workers;
    assert Do(OverlapState(4), OverlapAction(4)).deletes == OverlapState(5).deletes;
    assert Do(OverlapState(5), OverlapAction(5)).deletes == OverlapState(6).deletes;
  }

  /** Two overlapping installs of one uuid, the newer finishing first, leave nothing registered:
      a delete does not wait although the older one is still working. */
  lemma OverlapWitness() returns (ss: seq<State>, acts: seq<Action>)
    ensures Run(ss, acts)
    ensures var s := ss[|acts|];
            && Enabled(s, SecondRemove(0)) && s.deletes[0].uuid == "u" && Installing(s, "u")
            && (forall j :: 0 <= j < |acts| ==> !acts[j].TimeOut?)
  {
    ss := seq(7, k requires 0 <= k < 7 => OverlapState(k));
    acts := seq(6, k requires 0 <= k < 6 => OverlapAction(k));
    FirstOverlapSteps();
    LastOverlapSteps();
    forall k | 0 <= k < 6 ensures Enabled(ss[k], acts[k]) && ss[k + 1] == Do(ss[k], acts[k]) {
      assert OverlapStep(k);
    }
    assert OverlapState(6).workers[0].working;
  }
}
