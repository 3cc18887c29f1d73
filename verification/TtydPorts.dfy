/** The ring allocator of console ports and the gap between reserving a port and registering it
    (daemon/main.go:53-161). */
module TtydPorts {

  const BASE := 7681
  const MAX := 7781
  const RING := 101  // MAX - BASE + 1

  predicate InRange(port: int) {
    BASE <= port <= MAX
  }

  /** The port `i` places after `cursor` on the ring. */
  function PortAt(cursor: int, i: nat): int {
    BASE + (cursor - BASE + i) % RING
  }

  /** How far the search goes: `k` places from the cursor are in use and the next is not, or all
      but the cursor's predecessor are in use and `k` is RING - 1. */
  predicate Offset(used: set<int>, cursor: int, k: nat) {
    && k <= RING - 1
    && (forall i :: 0 <= i < k ==> PortAt(cursor, i) in used)
    && (k < RING - 1 ==> PortAt(cursor, k) !in used)
  }

  lemma OffsetUnique(used: set<int>, cursor: int, j: nat, k: nat)
    requires Offset(used, cursor, j) && Offset(used, cursor, k)
    ensures j == k
  {
  }

  lemma {:induction false} OffsetFrom(used: set<int>, cursor: int, from: nat) returns (k: nat)
    requires from <= RING - 1 && forall i :: 0 <= i < from ==> PortAt(cursor, i) in used
    ensures Offset(used, cursor, k)
    decreases RING - from
  {
    if from < RING - 1 && PortAt(cursor, from) in used {
      k := OffsetFrom(used, cursor, from + 1);
    } else {
      k := from;
    }
  }

  lemma OffsetExists(used: set<int>, cursor: int)
    ensures exists k: nat :: Offset(used, cursor, k)
  {
    var k := OffsetFrom(used, cursor, 0);
  }

  /** How far the search goes; there is one answer only. */
  ghost function Reach(used: set<int>, cursor: int): (k: nat)
    ensures Offset(used, cursor, k)
  {
    OffsetExists(used, cursor);
    var k: nat :| Offset(used, cursor, k);
    k
  }

  /** One step round the ring; after RING - 1 more the search is back at the cursor. */
  lemma PortStep(cursor: int, k: nat)
    requires InRange(cursor) && k < RING
    ensures InRange(PortAt(cursor, k))
    ensures PortAt(cursor, k + 1) == if PortAt(cursor, k) == MAX then BASE else PortAt(cursor, k) + 1
    ensures PortAt(cursor, k + 1) == cursor <==> k == RING - 1
  {
  }

  class Allocator {
    var instances: map<string, int>  // uuid -> port
    var nextPort: int

    constructor ()
      ensures instances == map[] && nextPort == BASE
    {
      instances, nextPort := map[], BASE;
    }

    /** The loop over the registered instances. */
    method InUse(port: int) returns (inUse: bool)
      ensures inUse <==> port in instances.Values
    {
      var rest := instances.Keys;
      while rest != {}
        invariant rest <= instances.Keys
        invariant forall u :: u in instances.Keys - rest ==> instances[u] != port
        decreases |rest|
      {
        var u :| u in rest;
        if instances[u] == port {
          return true;
        }
        rest := rest - {u};
      }
      return false;
    }

    /** `findAvailablePort`: the first unused port from the cursor, which is left just past it; 0,
        with the cursor where it was, exactly when all but the cursor's predecessor are in use. */
    method FindAvailablePort() returns (port: int)
      requires InRange(nextPort)
      modifies this`nextPort
      ensures InRange(nextPort)
      ensures var k := Reach(instances.Values, old(nextPort));
              if k == RING - 1 then port == 0 && nextPort == old(nextPort)
              else port == PortAt(old(nextPort), k) && nextPort == PortAt(old(nextPort), k + 1)
      ensures port != 0 ==> InRange(port) && port !in instances.Values
    {
      var startPort := nextPort;
      ghost var k: nat := 0;
      while true
        invariant k < RING && nextPort == PortAt(startPort, k)
        invariant forall i :: 0 <= i < k ==> PortAt(startPort, i) in instances.Values
        decreases RING - k
      {
        port := nextPort;
        nextPort := nextPort + 1;
        if nextPort > MAX {
          nextPort := BASE;
        }
        PortStep(startPort, k);
        if nextPort == startPort {
          OffsetUnique(instances.Values, startPort, k, Reach(instances.Values, startPort));
          return 0;
        }
        var inUse := InUse(port);
        if !inUse {
          OffsetUnique(instances.Values, startPort, k, Reach(instances.Values, startPort));
          return;
        }
        k := k + 1;
      }
    }
  }

  /** Every port of the ring is some number of places after the cursor. */
  lemma PortReached(cursor: int, port: int) returns (i: nat)
    requires InRange(cursor) && InRange(port)
    ensures i < RING && PortAt(cursor, i) == port
  {
    i := if port >= cursor then port - cursor else port - cursor + RING;
  }

  /** The search fails exactly when every port but the cursor's ring predecessor is in use. */
  lemma FailsIff(used: set<int>, cursor: int)
    requires InRange(cursor)
    ensures Reach(used, cursor) == RING - 1
       <==> forall p :: InRange(p) && p != PortAt(cursor, RING - 1) ==> p in used
  {
    var k := Reach(used, cursor);
    if k == RING - 1 {
      forall p | InRange(p) && p != PortAt(cursor, RING - 1) ensures p in used {
        var i := PortReached(cursor, p);
      }
    } else {
      assert InRange(PortAt(cursor, k)) && PortAt(cursor, k) != PortAt(cursor, RING - 1);
    }
  }

  /** Two free ports always suffice, whatever the cursor. */
  lemma TwoFreeSuffice(used: set<int>, cursor: int, p: int, q: int)
    requires InRange(cursor)
    requires InRange(p) && InRange(q) && p != q && p !in used && q !in used
    ensures Reach(used, cursor) < RING - 1
  {
    FailsIff(used, cursor);
  }

  // ---------------------------------------------------------------- reserve, then register

  /** A console's port, with the place of the cursor, counted without wrapping, at which it was
      handed out. */
  datatype Held = Held(uuid: string, port: int, place: nat)

  /** A start request is `checked` between its lookup and its search, and `pending` between the search
      and the registration.  Its process is `running` from then until it ends, and `exited` until
      its entry is taken out.  `instances` is the map of entries, which a second start of a uuid
      overwrites and any exit of that uuid removes.  `advance` counts the cursor's steps; `log`
      records the ports handed out. */
  datatype State = State(advance: nat, checked: map<nat, string>, pending: map<nat, Held>,
                         running: map<nat, Held>, exited: map<nat, string>,
                         instances: map<string, Held>, log: seq<Held>)

  datatype Action =
    | Check(h: nat, uuid: string)    // startTtyd found no instance and released the lock
    | Reserve(h: nat)                // findAvailablePort
    | StartFails(h: nat)             // the process could not be started
    | Register(h: nat)               // its entry is put in the map
    | Exit(h: nat)                   // the process ends, by itself or killed
    | Reap(h: nat)                   // the entry of its uuid is taken out
    | Stop(uuid: string)             // stopTtyd takes the entry out; the process is killed after that

  function Cursor(s: State): int {
    BASE + s.advance % RING
  }

  function UsedPorts(s: State): set<int> {
    set u | u in s.instances :: s.instances[u].port
  }

  /** The search from state `s`. */
  ghost function Steps(s: State): nat {
    Reach(UsedPorts(s), Cursor(s))
  }

  ghost predicate Init(s: State) {
    s == State(0, map[], map[], map[], map[], map[], [])
  }

  ghost predicate Next(s: State, a: Action, t: State) {
    match a
    case Check(h, uuid) =>
      && h !in s.checked && h !in s.pending && h !in s.running && h !in s.exited && uuid !in s.instances
      && t == s.(checked := s.checked[h := uuid])
    case Reserve(h) =>
      h in s.checked && t == if Steps(s) == RING - 1 then s.(checked := s.checked - {h}) else Reserved(s, h, Steps(s))
    case StartFails(h) =>
      h in s.pending && t == s.(pending := s.pending - {h})
    case Register(h) =>
      && h in s.pending
      && t == s.(pending := s.pending - {h}, running := s.running[h := s.pending[h]],
                 instances := s.instances[s.pending[h].uuid := s.pending[h]])
    case Exit(h) =>
      h in s.running && t == s.(running := s.running - {h}, exited := s.exited[h := s.running[h].uuid])
    case Reap(h) =>
      h in s.exited && t == s.(exited := s.exited - {h}, instances := s.instances - {s.exited[h]})
    case Stop(uuid) =>
      t == s.(instances := s.instances - {uuid})
  }

  /** The state after a search of `k` steps that found a port. */
  function Reserved(s: State, h: nat, k: nat): State
    requires h in s.checked
  {
    var held := Held(s.checked[h], PortAt(Cursor(s), k), s.advance + k);
    s.(advance := s.advance + k + 1, checked := s.checked - {h}, pending := s.pending[h := held], log := s.log + [held])
  }

  ghost predicate Run(ss: seq<State>, acts: seq<Action>) {
    && |ss| == |acts| + 1 && Init(ss[0])
    && forall i :: 0 <= i < |acts| ==> Next(ss[i], acts[i], ss[i + 1])
  }

  /** The consoles that have a port: pending ones and live processes, listed or not. */
  function Holders(s: State): map<nat, Held> {
    s.pending + s.running
  }

  predicate Sound(advance: nat, x: Held) {
    x.place < advance && x.port == BASE + x.place % RING
  }

  ghost predicate SoundHolders(advance: nat, hs: map<nat, Held>) {
    && (forall h :: h in hs ==> Sound(advance, hs[h]))
    && (forall h, g :: h in hs && g in hs && h != g ==> hs[h].place != hs[g].place)
  }

  ghost predicate SoundEntries(advance: nat, instances: map<string, Held>) {
    forall u :: u in instances ==> Sound(advance, instances[u]) && instances[u].uuid == u
  }

  ghost predicate SoundLog(advance: nat, log: seq<Held>) {
    && (forall i :: 0 <= i < |log| ==> Sound(advance, log[i]))
    && (forall i, j :: 0 <= i < j < |log| ==> log[i].place < log[j].place)
  }

  ghost predicate Apart(s: State) {
    && s.pending.Keys !! s.running.Keys && s.checked.Keys !! s.pending.Keys && s.checked.Keys !! s.running.Keys
    && s.exited.Keys !! s.running.Keys && s.exited.Keys !! s.pending.Keys && s.exited.Keys !! s.checked.Keys
  }

  /** What every step keeps. */
  ghost predicate Inv(s: State) {
    && Apart(s) && SoundHolders(s.advance, Holders(s))
    && SoundEntries(s.advance, s.instances) && SoundLog(s.advance, s.log)
  }

  lemma RingPlace(advance: nat, k: nat)
    ensures PortAt(BASE + advance % RING, k) == BASE + (advance + k) % RING
  {
    var q, r := advance / RING, advance % RING;
    assert advance == RING * q + r;
    assert (r + k) % RING == (RING * q + (r + k)) % RING;
  }

  ghost predicate Among(gs: map<nat, Held>, hs: map<nat, Held>) {
    forall h :: h in gs ==> h in hs && gs[h] == hs[h]
  }

  lemma FewerHolders(advance: nat, hs: map<nat, Held>, gs: map<nat, Held>)
    requires SoundHolders(advance, hs) && Among(gs, hs)
    ensures SoundHolders(advance, gs)
  {
  }

  /** Only a reservation adds a holder. */
  lemma NoNewHolder(s: State, a: Action, t: State)
    requires Apart(s) && Next(s, a, t) && (a.Reserve? ==> Steps(s) == RING - 1)
    ensures Among(Holders(t), Holders(s)) && Apart(t)
  {
  }

  lemma EntriesKept(s: State, a: Action, t: State)
    requires Inv(s) && Next(s, a, t) && !a.Reserve?
    ensures SoundEntries(t.advance, t.instances)
  {
    if a.Register? {
      assert Holders(s)[a.h] == s.pending[a.h];
    }
  }

  lemma {:induction false} Step(s: State, a: Action, t: State)
    requires Inv(s) && Next(s, a, t)
    ensures Inv(t) && s.advance <= t.advance && s.log <= t.log
  {
    if a.Reserve? && Steps(s) < RING - 1 {
      ReserveStep(s, a.h, Steps(s));
    } else {
      NoNewHolder(s, a, t);
      FewerHolders(s.advance, Holders(s), Holders(t));
      if !a.Reserve? {
        EntriesKept(s, a, t);
      }
    }
  }

  lemma ReserveStep(s: State, h: nat, k: nat)
    requires Inv(s) && h in s.checked
    ensures var t := Reserved(s, h, k); Inv(t) && s.advance <= t.advance && s.log <= t.log
  {
    var t := Reserved(s, h, k);
    var held := t.pending[h];
    RingPlace(s.advance, k);
    assert Holders(t) == Holders(s)[h := held];
    assert t.log[..|s.log|] == s.log;
  }

  lemma {:induction false} RunInv(ss: seq<State>, acts: seq<Action>, n: nat)
    requires Run(ss, acts) && n < |ss|
    ensures Inv(ss[n])
  {
    if n > 0 {
      RunInv(ss, acts, n - 1);
      Step(ss[n - 1], acts[n - 1], ss[n]);
    }
  }

  lemma SameResidue(x: nat, y: nat) returns (m: nat)
    requires x < y && x % RING == y % RING
    ensures m >= 1 && y - x == m * RING
  {
    assert x == RING * (x / RING) + x % RING && y == RING * (y / RING) + y % RING;
    m := y / RING - x / RING;
  }

  /** Over every interleaving: the same port is handed out twice only after the cursor has advanced
      by a positive multiple of the ring in between; so ports handed out within a total advance
      below RING are pairwise distinct, registered or not. */
  lemma SamePortApart(ss: seq<State>, acts: seq<Action>, n: nat, i: nat, j: nat)
    requires Run(ss, acts) && n < |ss| && i < j < |ss[n].log|
    ensures ss[n].log[i].port == ss[n].log[j].port
       <==> exists m: nat :: m >= 1 && ss[n].log[j].place - ss[n].log[i].place == m * RING
    ensures ss[n].log[j].place - ss[n].log[i].place < RING ==> ss[n].log[i].port != ss[n].log[j].port
  {
    RunInv(ss, acts, n);
    var x, y := ss[n].log[i].place, ss[n].log[j].place;
    if x % RING == y % RING {
      var m := SameResidue(x, y);
    }
    if m: nat :| m >= 1 && y - x == m * RING {
      assert x == RING * (x / RING) + x % RING;
      assert y == RING * (x / RING + m) + x % RING;
    }
  }

  // ---------------------------------------------------------------- when ports are shared

  /** No two holders have the same port. */
  ghost predicate Distinct(s: State) {
    forall h, g :: h in Holders(s) && g in Holders(s) && h != g ==> Holders(s)[h].port != Holders(s)[g].port
  }

  /** A live process whose entry is in the map. */
  ghost predicate Listed(s: State, h: nat) {
    h in s.running && s.running[h].uuid in s.instances && s.instances[s.running[h].uuid] == s.running[h]
  }

  /** A holder whose port the map does not show: it is pending, or a live process without an entry. */
  ghost predicate Exposed(s: State, h: nat) {
    h in s.pending || (h in s.running && !Listed(s, h))
  }

  /** The reservation finds a port, the first from the cursor without an entry, that an exposed
      holder has. */
  ghost predicate Clashes(s: State, a: Action) {
    && a.Reserve? && Steps(s) < RING - 1
    && exists h :: Exposed(s, h) && Holders(s)[h].port == PortAt(Cursor(s), Steps(s))
  }

  /** Distinctness is lost exactly at such a reservation. */
  lemma {:induction false} SharedIff(s: State, a: Action, t: State)
    requires Inv(s) && Distinct(s) && Next(s, a, t)
    ensures Distinct(t) <==> !Clashes(s, a)
  {
    if a.Reserve? && Steps(s) < RING - 1 {
      SharedByReserve(s, a.h, t);
    } else {
      NoNewHolder(s, a, t);
    }
  }

  /** A listed process never has the port that is found. */
  lemma FoundIsExposed(s: State, h: nat)
    requires Steps(s) < RING - 1 && h in Holders(s) && Holders(s)[h].port == PortAt(Cursor(s), Steps(s)) && Apart(s)
    ensures Exposed(s, h)
  {
    assert forall u :: u in s.instances ==> s.instances[u].port in UsedPorts(s);
  }

  lemma {:induction false} SharedByReserve(s: State, h: nat, t: State)
    requires Inv(s) && Distinct(s) && h in s.checked && Steps(s) < RING - 1 && t == Reserved(s, h, Steps(s))
    ensures Distinct(t) <==> !exists g :: Exposed(s, g) && Holders(s)[g].port == PortAt(Cursor(s), Steps(s))
  {
    assert Holders(t) == Holders(s)[h := t.pending[h]];
    assert h !in Holders(s).Keys;
    forall g | g in Holders(s) && Holders(s)[g].port == PortAt(Cursor(s), Steps(s)) ensures Exposed(s, g) {
      FoundIsExposed(s, g);
    }
    if g :| Exposed(s, g) && Holders(s)[g].port == PortAt(Cursor(s), Steps(s)) {
      assert Holders(t)[g].port == Holders(t)[h].port;
    }
  }

  ghost predicate AlwaysDistinct(ss: seq<State>, n: nat)
    requires n < |ss|
  {
    forall i :: 0 <= i <= n ==> Distinct(ss[i])
  }

  ghost predicate NeverClashes(ss: seq<State>, acts: seq<Action>, n: nat)
    requires n <= |acts| < |ss|
  {
    forall i :: 0 <= i < n ==> !Clashes(ss[i], acts[i])
  }

  /** Over every run: no two holders ever share a port if and only if no reservation finds the port
      of an exposed one. */
  lemma {:induction false} DistinctRun(ss: seq<State>, acts: seq<Action>, n: nat)
    requires Run(ss, acts) && n < |ss|
    ensures AlwaysDistinct(ss, n) <==> NeverClashes(ss, acts, n)
  {
    if n > 0 {
      DistinctRun(ss, acts, n - 1);
      DistinctStep(ss, acts, n - 1);
    }
  }

  lemma DistinctStep(ss: seq<State>, acts: seq<Action>, n: nat)
    requires Run(ss, acts) && n < |acts|
    ensures AlwaysDistinct(ss, n + 1) <==> AlwaysDistinct(ss, n) && !Clashes(ss[n], acts[n])
    ensures NeverClashes(ss, acts, n + 1) <==> NeverClashes(ss, acts, n) && !Clashes(ss[n], acts[n])
  {
    OneMore(ss, n);
    if AlwaysDistinct(ss, n) {
      RunInv(ss, acts, n);
      SharedIff(ss[n], acts[n], ss[n + 1]);
    }
  }

  lemma OneMore(ss: seq<State>, n: nat)
    requires n + 1 < |ss|
    ensures AlwaysDistinct(ss, n + 1) <==> AlwaysDistinct(ss, n) && Distinct(ss[n + 1])
    ensures AlwaysDistinct(ss, n) ==> Distinct(ss[n])
  {
  }

  lemma SameRemainder(x: nat, y: nat)
    requires x <= y
    ensures x % RING == y % RING <==> (y - x) % RING == 0
  {
    assert x == RING * (x / RING) + x % RING && y == RING * (y / RING) + y % RING;
    assert y - x == RING * ((y - x) / RING) + (y - x) % RING;
  }

  /** The port found is a holder's only when the search has lapped it: it ends a multiple of the ring
      past the place at which that port was handed out. */
  lemma LappedPort(s: State, h: nat)
    requires Inv(s) && h in Holders(s)
    ensures Holders(s)[h].port == PortAt(Cursor(s), Steps(s))
       <==> (s.advance + Steps(s) - Holders(s)[h].place) % RING == 0
  {
    RingPlace(s.advance, Steps(s));
    SameRemainder(Holders(s)[h].place, s.advance + Steps(s));
  }

  lemma NotLapped(s: State, h: nat)
    requires Inv(s) && h in Holders(s) && s.advance + Steps(s) < RING
    ensures Holders(s)[h].port != PortAt(Cursor(s), Steps(s))
  {
    LappedPort(s, h);
    var d := s.advance + Steps(s) - Holders(s)[h].place;
    assert 0 < d < RING && d % RING == d;
  }

  lemma FirstRoundNoClash(s: State, a: Action, t: State)
    requires Inv(s) && Next(s, a, t) && t.advance <= RING
    ensures !Clashes(s, a)
  {
    if a.Reserve? && Steps(s) < RING - 1 {
      forall h | Exposed(s, h) ensures Holders(s)[h].port != PortAt(Cursor(s), Steps(s)) {
        NotLapped(s, h);
      }
    }
  }

  /** In particular none do while the cursor has not gone once around. */
  lemma {:induction false} FirstRoundDistinct(ss: seq<State>, acts: seq<Action>, n: nat)
    requires Run(ss, acts) && n < |ss| && ss[n].advance <= RING
    ensures Distinct(ss[n])
  {
    if n > 0 {
      RunInv(ss, acts, n - 1);
      Step(ss[n - 1], acts[n - 1], ss[n]);
      FirstRoundDistinct(ss, acts, n - 1);
      FirstRoundNoClash(ss[n - 1], acts[n - 1], ss[n]);
      SharedIff(ss[n - 1], acts[n - 1], ss[n]);
    }
  }

  // ---------------------------------------------------------------- how a live process becomes exposed

  /** The step takes the entry of a live process out: another start of its uuid registers, another
      process of its uuid is reaped, or its console is stopped. */
  ghost predicate Unlists(s: State, a: Action, uuid: string) {
    || (a.Register? && a.h in s.pending && s.pending[a.h].uuid == uuid)
    || (a.Reap? && a.h in s.exited && s.exited[a.h] == uuid)
    || (a.Stop? && a.uuid == uuid)
  }

  /** A process that stays alive loses its entry exactly at such a step, and never gets it back. */
  lemma UnlistedIff(s: State, a: Action, t: State, h: nat)
    requires Inv(s) && Next(s, a, t) && h in s.running && h in t.running
    ensures t.running[h] == s.running[h]
    ensures Listed(t, h) <==> Listed(s, h) && !Unlists(s, a, s.running[h].uuid)
  {
    if a.Register? {
      assert Holders(s)[a.h] == s.pending[a.h] && Holders(s)[h] == s.running[h];
    }
  }

  lemma RegisterLists(s: State, h: nat, t: State)
    requires Next(s, Register(h), t)
    ensures Listed(t, h) && t.running[h] == s.pending[h]
  {
  }

  /** The process of `h` is alive in every state after step `i` up to state `n`. */
  ghost predicate Alive(ss: seq<State>, i: nat, n: nat, h: nat)
    requires n < |ss|
  {
    forall t :: i < t <= n ==> h in ss[t].running
  }

  /** No step after `i` and before state `n` takes the entry of `uuid` out. */
  ghost predicate Kept(ss: seq<State>, acts: seq<Action>, i: nat, n: nat, uuid: string)
    requires n <= |acts| < |ss|
  {
    forall t :: i < t < n ==> !Unlists(ss[t], acts[t], uuid)
  }

  /** The process of `h` lives through step `n`, and keeps its entry if it has one and the step does
      not take it. */
  ghost predicate Follows(ss: seq<State>, acts: seq<Action>, n: nat, h: nat) {
    && n < |acts| < |ss| && h in ss[n].running && h in ss[n + 1].running
    && ss[n + 1].running[h] == ss[n].running[h]
    && (Listed(ss[n + 1], h) <==> Listed(ss[n], h) && !Unlists(ss[n], acts[n], ss[n].running[h].uuid))
  }

  lemma FollowsStep(ss: seq<State>, acts: seq<Action>, n: nat, h: nat)
    requires Run(ss, acts) && n < |acts| && h in ss[n].running && h in ss[n + 1].running
    ensures Follows(ss, acts, n, h)
  {
    RunInv(ss, acts, n);
    UnlistedIff(ss[n], acts[n], ss[n + 1], h);
  }

  lemma {:induction false} FollowsOn(ss: seq<State>, acts: seq<Action>, i: nat, n: nat, h: nat)
    requires i < n <= |acts| < |ss| && Listed(ss[i + 1], h)
    requires forall t: nat :: i < t < n ==> Follows(ss, acts, t, h)
    ensures h in ss[n].running && (Listed(ss[n], h) <==> Kept(ss, acts, i, n, ss[n].running[h].uuid))
  {
    if n > i + 1 {
      FollowsOn(ss, acts, i, n - 1, h);
      assert Follows(ss, acts, n - 1, h);
      KeptStep(ss, acts, i, n - 1, ss[n].running[h].uuid);
    }
  }

  lemma KeptStep(ss: seq<State>, acts: seq<Action>, i: nat, n: nat, uuid: string)
    requires i < n < |acts| < |ss|
    ensures Kept(ss, acts, i, n + 1, uuid) <==> Kept(ss, acts, i, n, uuid) && !Unlists(ss[n], acts[n], uuid)
  {
  }

  lemma ListedFirst(ss: seq<State>, acts: seq<Action>, i: nat, h: nat)
    requires Run(ss, acts) && i < |acts| && acts[i] == Register(h)
    ensures Listed(ss[i + 1], h)
  {
    RegisterLists(ss[i], h, ss[i + 1]);
  }

  /** Over every run: a process registered at step `i` and alive ever since is listed if and only
      if no step since then took its entry out. */
  lemma {:induction false} ListedIff(ss: seq<State>, acts: seq<Action>, i: nat, n: nat, h: nat)
    requires Run(ss, acts) && i < n < |ss| && acts[i] == Register(h) && Alive(ss, i, n, h)
    ensures h in ss[n].running && (Listed(ss[n], h) <==> Kept(ss, acts, i, n, ss[n].running[h].uuid))
  {
    ListedFirst(ss, acts, i, h);
    forall t: nat | i < t < n ensures Follows(ss, acts, t, h) {
      FollowsStep(ss, acts, t, h);
    }
    FollowsOn(ss, acts, i, n, h);
  }

  /** The entry is that of a process that lives, or has ended and is about to be reaped. */
  ghost predicate OwnerOf(s: State, u: string, x: Held) {
    (exists h :: h in s.running && s.running[h] == x) || (exists h :: h in s.exited && s.exited[h] == u)
  }

  ghost predicate Owned(s: State) {
    forall u :: u in s.instances ==> OwnerOf(s, u, s.instances[u])
  }

  lemma OwnerStays(s: State, a: Action, t: State, u: string, x: Held)
    requires Inv(s) && Next(s, a, t) && OwnerOf(s, u, x) && x.uuid == u && u in t.instances
    ensures OwnerOf(t, u, x)
  {
    if h :| h in s.running && s.running[h] == x {
      assert a == Exit(h) ==> t.exited[h] == u;
      assert a != Exit(h) ==> h in t.running && t.running[h] == x;
    } else {
      var h :| h in s.exited && s.exited[h] == u;
      assert a != Reap(h);
      assert h in t.exited && t.exited[h] == u;
    }
  }

  lemma OwnedStep(s: State, a: Action, t: State)
    requires Inv(s) && Owned(s) && Next(s, a, t)
    ensures Owned(t)
  {
    forall u | u in t.instances ensures OwnerOf(t, u, t.instances[u]) {
      if a.Register? && s.pending[a.h].uuid == u {
        assert t.running[a.h] == t.instances[u];
      } else {
        assert u in s.instances && t.instances[u] == s.instances[u];
        OwnerStays(s, a, t, u, s.instances[u]);
      }
    }
  }

  /** Over every run no entry outlives its process and the reaping. */
  lemma {:induction false} OwnedRun(ss: seq<State>, acts: seq<Action>, n: nat)
    requires Run(ss, acts) && n < |ss|
    ensures Owned(ss[n])
  {
    if n > 0 {
      OwnedRun(ss, acts, n - 1);
      RunInv(ss, acts, n - 1);
      OwnedStep(ss[n - 1], acts[n - 1], ss[n]);
    }
  }

  /** A process that ends gives its port up at once, its entry only when it is reaped. */
  lemma ExitFrees(s: State, h: nat, t: State, u: State)
    requires Inv(s) && Next(s, Exit(h), t) && Next(t, Reap(h), u)
    ensures h !in Holders(t) && t.instances == s.instances && s.running[h].uuid !in u.instances
  {
  }

  /** While a console is listed no other start of it gets past the lookup. */
  lemma ListedNotStarted(ss: seq<State>, acts: seq<Action>, n: nat, h: nat)
    requires Run(ss, acts) && n < |acts| && acts[n].Check?
    ensures Listed(ss[n], h) ==> acts[n].uuid != ss[n].running[h].uuid
  {
    assert Next(ss[n], acts[n], ss[n + 1]);
  }

  // ---------------------------------------------------------------- runs in which ports are shared

  /** Some run leads to the state. */
  ghost predicate Reachable(s: State) {
    exists ss, acts :: Run(ss, acts) && ss[|acts|] == s
  }

  lemma ReachInit(s: State)
    requires Init(s)
    ensures Reachable(s)
  {
    assert Run([s], []);
  }

  lemma ReachNext(s: State, a: Action, t: State)
    requires Reachable(s) && Next(s, a, t)
    ensures Reachable(t)
  {
    var ss, acts :| Run(ss, acts) && ss[|acts|] == s;
    assert Run(ss + [t], acts + [a]);
  }

  /** The search stops at once when the port at the cursor is not in use. */
  lemma NoSteps(s: State)
    requires Cursor(s) !in UsedPorts(s)
    ensures Steps(s) == 0
  {
    RingPlace(s.advance, 0);
    assert Offset(UsedPorts(s), Cursor(s), 0);
    OffsetUnique(UsedPorts(s), Cursor(s), 0, Steps(s));
  }

  /** What the holder of place `i` gets. */
  function HeldAt(uuid: string, i: nat): Held {
    Held(uuid, BASE + i % RING, i)
  }

  lemma ReachReserve(s: State, h: nat)
    requires Reachable(s) && h in s.checked && Cursor(s) !in UsedPorts(s)
    ensures var held := HeldAt(s.checked[h], s.advance);
            Reachable(s.(advance := s.advance + 1, checked := s.checked - {h}, pending := s.pending[h := held],
                         log := s.log + [held]))
  {
    NoSteps(s);
    RingPlace(s.advance, 0);
    ReachNext(s, Reserve(h), Reserved(s, h, 0));
  }

  predicate Unused(s: State, h: nat) {
    s.checked == map[] && h !in s.pending && h !in s.running && h !in s.exited
  }

  /** A lookup and the reservation that follows it. */
  lemma ReachTaken(s: State, h: nat, uuid: string)
    requires Reachable(s) && Unused(s, h) && uuid !in s.instances && Cursor(s) !in UsedPorts(s)
    ensures var held := HeldAt(uuid, s.advance);
            Reachable(s.(advance := s.advance + 1, pending := s.pending[h := held], log := s.log + [held]))
  {
    var t := s.(checked := s.checked[h := uuid]);
    ReachNext(s, Check(h, uuid), t);
    ReachReserve(t, h);
    assert t.checked - {h} == s.checked;
  }

  function LapUuid(h: nat): string {
    if h == 0 then "a" else "b"
  }

  function LapLog(n: nat): seq<Held> {
    seq(n, i requires 0 <= i < n => HeldAt(LapUuid(i), i))
  }

  /** Handlers 0 up to `n` have each looked up and reserved, and none has registered. */
  function LapState(n: nat): State {
    State(n, map[], map h: nat | h < n :: HeldAt(LapUuid(h), h), map[], map[], map[], LapLog(n))
  }

  lemma {:induction false} LapReachable(n: nat)
    ensures Reachable(LapState(n))
  {
    if n == 0 {
      assert LapState(0).pending == map[] && LapState(0).log == [];
      ReachInit(LapState(0));
    } else {
      var s, t := LapState(n - 1), LapState(n);
      LapReachable(n - 1);
      assert UsedPorts(s) == {};
      ReachTaken(s, n - 1, LapUuid(n - 1));
      assert t.pending == s.pending[n - 1 := HeldAt(LapUuid(n - 1), n - 1)];
      assert t.log == s.log + [HeldAt(LapUuid(n - 1), n - 1)];
    }
  }

  /** A run in which two consoles are given the same port, neither yet registered: RING other
      reservations fall into the gap of the first. */
  lemma LapWitness() returns (ss: seq<State>, acts: seq<Action>)
    ensures Run(ss, acts)
    ensures var s := ss[|acts|];
            && 0 in s.pending && RING in s.pending && s.pending[0].uuid != s.pending[RING].uuid
            && s.pending[0].port == s.pending[RING].port
  {
    var s := LapState(RING + 1);
    LapReachable(RING + 1);
    assert s.pending[0] == HeldAt(LapUuid(0), 0) && s.pending[RING] == HeldAt(LapUuid(RING), RING);
    ss, acts :| Run(ss, acts) && ss[|acts|] == s;
  }

  function LiveLog(n: nat): seq<Held> {
    seq(n, i requires 0 <= i < n => HeldAt(if i < 2 then "a" else "b", i))
  }

  /** Console "a" was started twice at once; the second start has overwritten the entry of the first.
      Then starts 2 up to `n` of console "b" each took a port and failed. */
  function Failed(n: nat): State {
    var first, second := HeldAt("a", 0), HeldAt("a", 1);
    State(n, map[], map[], map[0 := first, 1 := second], map[], map["a" := second], LiveLog(n))
  }

  lemma ReachRegister(s: State, h: nat)
    requires Reachable(s) && h in s.pending
    ensures Reachable(s.(pending := s.pending - {h}, running := s.running[h := s.pending[h]],
                         instances := s.instances[s.pending[h].uuid := s.pending[h]]))
  {
    ReachNext(s, Register(h), s.(pending := s.pending - {h}, running := s.running[h := s.pending[h]],
                                 instances := s.instances[s.pending[h].uuid := s.pending[h]]));
  }

  /** Two lookups of "a" before either reservation. */
  lemma DoubleChecked() returns (s: State)
    ensures Reachable(s) && s == State(0, map[0 := "a", 1 := "a"], map[], map[], map[], map[], [])
  {
    var s0 := State(0, map[], map[], map[], map[], map[], []);
    var s1 := s0.(checked := map[0 := "a"]);
    s := s0.(checked := map[0 := "a", 1 := "a"]);
    ReachInit(s0);
    ReachNext(s0, Check(0, "a"), s1);
    assert s.checked == s1.checked[1 := "a"];
    ReachNext(s1, Check(1, "a"), s);
  }

  lemma DoubleReserved() returns (s: State)
    ensures Reachable(s)
    ensures s == State(2, map[], map[0 := HeldAt("a", 0), 1 := HeldAt("a", 1)], map[], map[], map[], LiveLog(2))
  {
    var first, second := HeldAt("a", 0), HeldAt("a", 1);
    var s2 := DoubleChecked();
    assert UsedPorts(s2) == {};
    ReachReserve(s2, 0);
    var s3 := State(1, map[1 := "a"], map[0 := first], map[], map[], map[], [first]);
    assert s2.checked - {0} == s3.checked && s2.log + [first] == s3.log;
    assert UsedPorts(s3) == {};
    ReachReserve(s3, 1);
    s := State(2, map[], map[0 := first, 1 := second], map[], map[], map[], LiveLog(2));
    assert s3.checked - {1} == map[] && s3.pending[1 := second] == s.pending && s3.log + [second] == s.log;
  }

  lemma DoubleStart()
    ensures Reachable(Failed(2))
  {
    var first, second := HeldAt("a", 0), HeldAt("a", 1);
    var s := DoubleReserved();
    ReachRegister(s, 0);
    var t := s.(pending := map[1 := second], running := map[0 := first], instances := map["a" := first]);
    assert s.pending - {0} == t.pending && s.running[0 := first] == t.running;
    ReachRegister(t, 1);
    assert t.pending - {1} == map[] && t.running[1 := second] == map[0 := first, 1 := second];
    assert t.instances["a" := second] == map["a" := second];
  }

  /** While the cursor is past the second port, the start of "b" gets the port at the cursor. */
  lemma TakeByB(n: nat)
    requires 2 <= n <= RING && Reachable(Failed(n))
    ensures var held := HeldAt("b", n);
            Reachable(Failed(n).(advance := n + 1, pending := map[n := held], log := LiveLog(n + 1)))
  {
    var s := Failed(n);
    assert forall u :: u in s.instances ==> s.instances[u].port == BASE + 1;
    assert Cursor(s) !in UsedPorts(s);
    ReachTaken(s, n, "b");
    assert s.log + [HeldAt("b", n)] == LiveLog(n + 1);
  }

  lemma {:induction false} FailedReachable(n: nat)
    requires 2 <= n <= RING
    ensures Reachable(Failed(n))
  {
    if n == 2 {
      DoubleStart();
    } else {
      FailedReachable(n - 1);
      TakeByB(n - 1);
      var s := Failed(n - 1).(advance := n, pending := map[n - 1 := HeldAt("b", n - 1)], log := LiveLog(n));
      assert s.pending - {n - 1} == map[];
      ReachNext(s, StartFails(n - 1), Failed(n));
    }
  }

  /** A run in which two live, registered processes of different consoles have the same port: the
      first lost its entry to a second start of its own console, and then the cursor came round. */
  lemma LiveWitness() returns (ss: seq<State>, acts: seq<Action>)
    ensures Run(ss, acts)
    ensures var s := ss[|acts|];
            && 0 in s.running && RING in s.running && s.running[0].uuid != s.running[RING].uuid
            && s.running[0].port == s.running[RING].port
  {
    var last := HeldAt("b", RING);
    FailedReachable(RING);
    TakeByB(RING);
    var s := Failed(RING).(advance := RING + 1, pending := map[RING := last], log := LiveLog(RING + 1));
    ReachRegister(s, RING);
    var t := s.(pending := s.pending - {RING}, running := s.running[RING := last],
                instances := s.instances["b" := last]);
    ss, acts :| Run(ss, acts) && ss[|acts|] == t;
    assert t.running[0] == HeldAt("a", 0) && t.running[RING] == last;
  }
}
