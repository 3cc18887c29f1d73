/** Ownership of port allocations across the panel's requests
    (panel/main.py:629-698, 737-806, 1361, 1494-1514, 1903-1975; panel/models.py:43-75).

    Each request is one atomic step on the committed tables.  Row identifiers are chosen by the
    database: an unused one for a server, increasing unused ones for allocations. */
module AllocationLedger {
  import opened Prelude
  import opened Text

  datatype Server = Server(node: int, primary: Option<int>)
  datatype Alloc = Alloc(node: int, ip: string, port: int, server: Option<int>)
  datatype Db = Db(nodes: set<int>, servers: map<int, Server>, allocs: map<int, Alloc>)

  /** How a request ends: done, 404 or 400, the daemon's refusal passed on, or the database's: it
      does not delete an allocation that some server's `primary_allocation_id` refers to. */
  datatype Reply = Done | NotFound | BadRequest | DaemonError | Conflict

  /** The daemon's answer to cloning onto a port. */
  datatype Answer = Accepts | PortBusy | Refuses

  type Table = map<int, Alloc>

  // ---------------------------------------------------------------- creating a server

  predicate Blank(image: string) {
    forall k :: 0 <= k < |image| ==> IsSpace(image[k])
  }

  /** A free allocation of `node`. */
  predicate Free(allocs: Table, node: int, a: int) {
    a in allocs && allocs[a].node == node && allocs[a].server.None?
  }

  predicate Skips(primary: int, a: int) {
    primary != 0 && a == primary
  }

  datatype Claim = Claimed(allocs: Table) | Missing | Taken

  /** The loop over the requested allocations. */
  function ClaimAll(allocs: Table, node: int, server: int, primary: int, ids: seq<int>): Claim
    decreases |ids|
  {
    if ids == [] then Claimed(allocs)
    else if Skips(primary, ids[0]) then ClaimAll(allocs, node, server, primary, ids[1..])
    else if ids[0] !in allocs || allocs[ids[0]].node != node then Missing
    else if allocs[ids[0]].server.Some? then Taken
    else ClaimAll(allocs[ids[0] := allocs[ids[0]].(server := Some(server))], node, server, primary, ids[1..])
  }

  /** The table in which exactly the rows of `owned` have become `server`'s. */
  function Grant(allocs: Table, server: int, owned: set<int>): Table {
    map a | a in allocs :: if a in owned then allocs[a].(server := Some(server)) else allocs[a]
  }

  function Wanted(primary: int, ids: seq<int>): set<int> {
    set k | 0 <= k < |ids| && !Skips(primary, ids[k]) :: ids[k]
  }

  predicate NoRepeats(primary: int, ids: seq<int>) {
    forall i, j :: 0 <= i < j < |ids| && !Skips(primary, ids[i]) ==> ids[i] != ids[j]
  }

  /** The loop succeeds exactly when every requested allocation other than the primary is a free
      one of the node and none is requested twice; then exactly those change owner. */
  lemma {:induction false} ClaimIff(allocs: Table, node: int, server: int, primary: int, ids: seq<int>)
    ensures ClaimAll(allocs, node, server, primary, ids).Claimed?
       <==> NoRepeats(primary, ids) && forall a :: a in Wanted(primary, ids) ==> Free(allocs, node, a)
    ensures ClaimAll(allocs, node, server, primary, ids).Claimed? ==>
              ClaimAll(allocs, node, server, primary, ids).allocs == Grant(allocs, server, Wanted(primary, ids))
    decreases |ids|
  {
    if ids == [] {
      assert Grant(allocs, server, {}) == allocs;
    } else {
      var a, rest := ids[0], ids[1..];
      WantedStep(primary, ids);
      if Skips(primary, a) {
        ClaimIff(allocs, node, server, primary, rest);
      } else if Free(allocs, node, a) {
        var next := allocs[a := allocs[a].(server := Some(server))];
        ClaimIff(next, node, server, primary, rest);
        if a !in Wanted(primary, rest) {
          assert forall b :: b in Wanted(primary, rest) ==> (Free(next, node, b) <==> Free(allocs, node, b));
          assert Grant(next, server, Wanted(primary, rest)) == Grant(allocs, server, Wanted(primary, ids));
        }
      }
    }
  }

  /** Otherwise it stops at an allocation that is not the node's, or at one already taken. */
  lemma {:induction false} ClaimErrors(allocs: Table, node: int, server: int, primary: int, ids: seq<int>)
    ensures ClaimAll(allocs, node, server, primary, ids).Missing? ==>
              exists a :: a in Wanted(primary, ids) && (a !in allocs || allocs[a].node != node)
    ensures ClaimAll(allocs, node, server, primary, ids).Taken? ==>
              !NoRepeats(primary, ids) || exists a :: a in Wanted(primary, ids) && a in allocs && allocs[a].server.Some?
    decreases |ids|
  {
    if ids != [] {
      var a, rest := ids[0], ids[1..];
      WantedStep(primary, ids);
      if Skips(primary, a) {
        ClaimErrors(allocs, node, server, primary, rest);
      } else if Free(allocs, node, a) {
        ClaimErrors(allocs[a := allocs[a].(server := Some(server))], node, server, primary, rest);
      } else {
        assert a in Wanted(primary, ids);
      }
    }
  }

  lemma WantedStep(primary: int, ids: seq<int>)
    requires ids != []
    ensures Wanted(primary, ids) == Wanted(primary, ids[1..]) + if Skips(primary, ids[0]) then {} else {ids[0]}
    ensures NoRepeats(primary, ids)
       <==> NoRepeats(primary, ids[1..]) && (Skips(primary, ids[0]) || ids[0] !in Wanted(primary, ids[1..]))
  {
    var rest := ids[1..];
    forall b ensures b in Wanted(primary, ids) <==> b in Wanted(primary, rest) || (b == ids[0] && !Skips(primary, b)) {
      if k :| 0 <= k < |ids| && ids[k] == b && !Skips(primary, b) {
        if k > 0 { assert rest[k - 1] == b; }
      }
      if k :| 0 <= k < |rest| && rest[k] == b && !Skips(primary, b) {
        assert ids[k + 1] == b;
      }
    }
    if NoRepeats(primary, rest) && (Skips(primary, ids[0]) || ids[0] !in Wanted(primary, rest)) {
      forall i, j | 0 <= i < j < |ids| && !Skips(primary, ids[i]) ensures ids[i] != ids[j] {
        if i > 0 {
          assert rest[i - 1] != rest[j - 1];
        } else {
          assert rest[j - 1] == ids[j];
        }
      }
    }
    if NoRepeats(primary, ids) {
      forall i, j | 0 <= i < j < |rest| && !Skips(primary, rest[i]) ensures rest[i] != rest[j] {
        assert ids[i + 1] != ids[j + 1];
      }
    }
  }

  /** The request is acceptable. */
  predicate Creatable(db: Db, node: int, image: string, primary: int, ids: seq<int>) {
    && node in db.nodes && !Blank(image)
    && (primary != 0 ==> Free(db.allocs, node, primary))
    && NoRepeats(primary, ids)
    && forall a :: a in Wanted(primary, ids) ==> Free(db.allocs, node, a)
  }

  function Owned(primary: int, ids: seq<int>): set<int> {
    Wanted(primary, ids) + if primary == 0 then {} else {primary}
  }

  function AddServer(db: Db, id: int, node: int, primary: int, ids: seq<int>): Db {
    Db(db.nodes, db.servers[id := Server(node, if primary == 0 then None else Some(primary))],
       Grant(db.allocs, id, Owned(primary, ids)))
  }

  // ---------------------------------------------------------------- the other requests

  predicate Exists(allocs: Table, node: int, ip: string, port: int) {
    exists a :: a in allocs && allocs[a].node == node && allocs[a].ip == ip && allocs[a].port == port
  }

  /** The loop of `create_allocations` over its first `n` ports; duplicates are looked up in the
      committed table `was`, and new rows are numbered from `id`. */
  function AddPorts(was: Table, node: int, ip: string, start: int, n: nat, id: int): (Table, int) {
    if n == 0 then (was, id)
    else
      var r := AddPorts(was, node, ip, start, n - 1, id);
      if Exists(was, node, ip, start + n - 1) then r
      else (r.0[r.1 := Alloc(node, ip, start + n - 1, None)], r.1 + 1)
  }

  /** The allocation cloning settles on: of the free ones in order of id, the first whose port the
      daemon does not report as busy. */
  ghost predicate CloneChoice(allocs: Table, node: int, answers: int -> Answer, a: int) {
    && Free(allocs, node, a) && answers(a) != PortBusy
    && forall b :: Free(allocs, node, b) && b < a ==> answers(b) == PortBusy
  }

  function Release(allocs: Table, server: int): Table {
    map a | a in allocs :: if allocs[a].server == Some(server) then allocs[a].(server := None) else allocs[a]
  }

  function DropNode(db: Db, node: int): Db {
    Db(db.nodes - {node}, db.servers, map a | a in db.allocs && db.allocs[a].node != node :: db.allocs[a])
  }

  /** Some server's primary allocation is `a`. */
  predicate IsPrimary(db: Db, a: int) {
    exists s :: s in db.servers && db.servers[s].primary == Some(a)
  }

  /** Some server's primary allocation lies on `node`. */
  predicate PrimaryOn(db: Db, node: int) {
    exists s ::
      && s in db.servers && db.servers[s].primary.Some? && db.servers[s].primary.value in db.allocs
      && db.allocs[db.servers[s].primary.value].node == node
  }

  predicate HasServers(db: Db, node: int) {
    exists s :: s in db.servers && db.servers[s].node == node
  }

  // ---------------------------------------------------------------- the panel

  class Panel {
    var nodes: set<int>
    var servers: map<int, Server>
    var allocs: Table

    function View(): Db
      reads this
    {
      Db(nodes, servers, allocs)
    }

    constructor ()
      ensures View() == Db({}, map[], map[])
    {
      nodes, servers, allocs := {}, map[], map[];
    }

    /** `create_allocations`. */
    method CreateAllocations(node: int, ip: string, start: int, count: nat, id: int) returns (r: Reply)
      requires 0 < id && forall a :: a in allocs ==> a < id
      modifies this`allocs
      ensures r == Done <==> Accepted(old(View()), Request.CreateAllocations(node, ip, start, count, id))
      ensures r == Done ==> View() == Do(old(View()), Request.CreateAllocations(node, ip, start, count, id))
      ensures r == if node in nodes then Done else NotFound
      ensures allocs == if node in nodes then AddPorts(old(allocs), node, ip, start, count, id).0 else old(allocs)
    {
      if node !in nodes {
        return NotFound;
      }
      var committed, next := allocs, id;
      for i := 0 to count
        invariant (allocs, next) == AddPorts(committed, node, ip, start, i, id)
      {
        var port := start + i;
        if Exists(committed, node, ip, port) {
          continue;
        }
        allocs := allocs[next := Alloc(node, ip, port, None)];
        next := next + 1;
      }
      return Done;
    }

    /** `delete_allocation`. */
    method DeleteAllocation(a: int) returns (r: Reply)
      modifies this`allocs
      ensures r == if a !in old(allocs) then NotFound
                   else if old(allocs)[a].server.Some? then BadRequest
                   else if IsPrimary(old(View()), a) then Conflict else Done
      ensures r == Done <==> Accepted(old(View()), Request.DeleteAllocation(a))
      ensures View() == if r == Done then Do(old(View()), Request.DeleteAllocation(a)) else old(View())
    {
      if a !in allocs {
        return NotFound;
      }
      if allocs[a].server.Some? {
        return BadRequest;
      }
      if IsPrimary(View(), a) {
        return Conflict;
      }
      allocs := allocs - {a};
      return Done;
    }

    /** `create_server` up to its commit.  A failure after the row was added rolls back. */
    method CreateServer(node: int, image: string, primary: int, ids: seq<int>, id: int) returns (r: Reply)
      requires id !in servers
      modifies this`servers, this`allocs
      ensures r == Done <==> Accepted(old(View()), Request.CreateServer(node, image, primary, ids, id))
      ensures r == Done ==> View() == Do(old(View()), Request.CreateServer(node, image, primary, ids, id))
      ensures r != Done ==> View() == old(View())
      ensures r == NotFound ==> node !in old(nodes)
                                || exists a :: && a in Owned(primary, ids)
                                                 && (a !in old(allocs) || old(allocs)[a].node != node)
      ensures r == BadRequest ==> Blank(image) || !NoRepeats(primary, ids)
                                  || exists a :: && a in Owned(primary, ids) && a in old(allocs)
                                                   && old(allocs)[a].server.Some?
      ensures r != DaemonError && r != Conflict
    {
      if node !in nodes {
        return NotFound;
      }
      if Blank(image) {
        return BadRequest;
      }
      if primary != 0 {
        if primary !in allocs || allocs[primary].node != node {
          return NotFound;
        }
        if allocs[primary].server.Some? {
          return BadRequest;
        }
      }
      ghost var before := allocs;
      var savedServers, savedAllocs := servers, allocs;
      servers := servers[id := Server(node, if primary == 0 then None else Some(primary))];
      if primary != 0 {
        allocs := allocs[primary := allocs[primary].(server := Some(id))];
      }
      ghost var start := allocs;
      ClaimIff(start, node, id, primary, ids);
      ClaimErrors(start, node, id, primary, ids);
      PrimaryFirst(before, start, node, id, primary, ids);
      var k := 0;
      while k < |ids|
        invariant 0 <= k <= |ids|
        invariant ClaimAll(allocs, node, id, primary, ids[k..]) == ClaimAll(start, node, id, primary, ids)
        invariant nodes == old(nodes)
        invariant servers == old(servers)[id := Server(node, if primary == 0 then None else Some(primary))]
      {
        var a := ids[k];
        assert ids[k..][1..] == ids[k + 1..];
        k := k + 1;
        if primary != 0 && a == primary {
          continue;
        }
        if a !in allocs || allocs[a].node != node {
          servers, allocs := savedServers, savedAllocs;
          return NotFound;
        }
        if allocs[a].server.Some? {
          servers, allocs := savedServers, savedAllocs;
          return BadRequest;
        }
        allocs := allocs[a := allocs[a].(server := Some(id))];
      }
      return Done;
    }

    /** `clone_server`, given the daemon's answer for each candidate.  `chosen` is the candidate that
        settled the outcome, if any did. */
    method CloneServer(source: int, answers: int -> Answer, id: int) returns (r: Reply, ghost chosen: int)
      requires id !in servers && 0 !in allocs
      modifies this`servers, this`allocs
      ensures r == NotFound <==> source !in old(servers) || old(servers)[source].node !in nodes
      ensures r != NotFound ==>
                var node := old(servers)[source].node;
                && (r == BadRequest <==> forall a :: !Free(old(allocs), node, a))
                && (r == Done ==> CloneChoice(old(allocs), node, answers, chosen) && answers(chosen) == Accepts
                                  && Accepted(old(View()), Request.CloneServer(source, chosen, id))
                                  && View() == Do(old(View()), Request.CloneServer(source, chosen, id)))
                && (r == DaemonError ==> (CloneChoice(old(allocs), node, answers, chosen) && answers(chosen) == Refuses)
                                         || forall a :: Free(old(allocs), node, a) ==> answers(a) == PortBusy)
      ensures r != Conflict
      ensures r != Done ==> View() == old(View())
    {
      chosen := 0;
      if source !in servers || servers[source].node !in nodes {
        return NotFound, chosen;
      }
      var node := servers[source].node;
      var rest := set a | a in allocs && Free(allocs, node, a);
      ghost var all := rest;
      assert forall a :: a in all <==> Free(allocs, node, a);
      if |rest| == 0 {
        return BadRequest, chosen;
      }
      assert exists a :: Free(allocs, node, a) by {
        var a :| a in rest;
      }
      while |rest| > 0
        invariant rest <= all && allocs == old(allocs) && servers == old(servers)
        invariant forall a, b :: a in all && a !in rest && b in rest ==> a < b
        invariant forall a :: a in all && a !in rest ==> answers(a) == PortBusy
        decreases |rest|
      {
        var a := Least(rest);
        assert a in all;
        assert answers(a) != PortBusy ==> CloneChoice(allocs, node, answers, a);
        chosen := a;
        if answers(a) == Refuses {
          return DaemonError, chosen;
        }
        if answers(a) == Accepts {
          servers := servers[id := Server(node, Some(a))];
          allocs := allocs[a := allocs[a].(server := Some(id))];
          assert allocs == Grant(old(allocs), id, Owned(a, []));
          return Done, chosen;
        }
        rest := rest - {a};
      }
      return DaemonError, chosen;
    }

    /** `delete_server`: its allocations are released and its row removed. */
    method DeleteServer(id: int) returns (r: Reply)
      modifies this`servers, this`allocs
      ensures r == if id in old(servers) then Done else NotFound
      ensures r == Done <==> Accepted(old(View()), Request.DeleteServer(id))
      ensures View() == if r == Done then Do(old(View()), Request.DeleteServer(id)) else old(View())
    {
      if id !in servers {
        return NotFound;
      }
      allocs := map a | a in allocs :: if allocs[a].server == Some(id) then allocs[a].(server := None) else allocs[a];
      servers := servers - {id};
      return Done;
    }

    /** `delete_node`: refused while servers are on the node; its allocations go with it, unless one
        is a primary allocation. */
    method DeleteNode(node: int) returns (r: Reply)
      modifies this
      ensures r == if node !in old(nodes) then NotFound
                   else if HasServers(old(View()), node) then BadRequest
                   else if PrimaryOn(old(View()), node) then Conflict else Done
      ensures r == Done <==> Accepted(old(View()), Request.DeleteNode(node))
      ensures View() == if r == Done then Do(old(View()), Request.DeleteNode(node)) else old(View())
    {
      if node !in nodes {
        return NotFound;
      }
      if exists s :: s in servers && servers[s].node == node {
        return BadRequest;
      }
      if PrimaryOn(View(), node) {
        return Conflict;
      }
      allocs := map a | a in allocs && allocs[a].node != node :: allocs[a];
      nodes := nodes - {node};
      return Done;
    }
  }

  lemma HasMember(s: set<int>)
    ensures |s| > 0 ==> exists x :: x in s
  {
    assert (forall x :: x !in s) ==> s == {};
  }

  /** The least member of a non-empty set, as `order_by(id)` delivers it first. */
  method Least(s: set<int>) returns (m: int)
    requires |s| > 0
    ensures m in s && forall x :: x in s ==> m <= x
  {
    HasMember(s);
    m :| m in s;
    var rest := s - {m};
    while |rest| > 0
      invariant m in s && rest <= s
      invariant forall x :: x in s ==> x in rest || m <= x
      decreases |rest|
    {
      HasMember(rest);
      var x :| x in rest;
      if x < m {
        m := x;
      }
      rest := rest - {x};
    }
  }

  /** Taking the primary before the loop amounts to taking it with the others. */
  lemma PrimaryFirst(before: Table, start: Table, node: int, server: int, primary: int, ids: seq<int>)
    requires primary == 0 ==> start == before
    requires primary != 0 ==> Free(before, node, primary)
    requires primary != 0 ==> start == before[primary := before[primary].(server := Some(server))]
    ensures forall a :: a in Wanted(primary, ids) ==> (a in start <==> a in before)
    ensures forall a :: a in Wanted(primary, ids) && a in start ==> start[a] == before[a]
    ensures Grant(start, server, Wanted(primary, ids)) == Grant(before, server, Owned(primary, ids))
  {
  }

  /** There is one choice, and it is the free allocation with the least id whose port is not busy. */
  lemma CloneChoiceLeast(allocs: Table, node: int, answers: int -> Answer, a: int, b: int)
    requires CloneChoice(allocs, node, answers, a) && CloneChoice(allocs, node, answers, b)
    ensures a == b
    ensures forall c ::
              c in allocs && allocs[c].node == node && allocs[c].server.None? && answers(c) != PortBusy ==> a <= c
  {
    assert Free(allocs, node, a) && Free(allocs, node, b);
    forall c | c in allocs && allocs[c].node == node && allocs[c].server.None? && answers(c) != PortBusy
      ensures a <= c
    {
      assert Free(allocs, node, c);
    }
  }

  // ---------------------------------------------------------------- runs of requests

  /** A request that was accepted, with the identifiers the database chose. */
  datatype Request =
    | AddNode(node: int)
    | DeleteNode(node: int)
    | CreateAllocations(node: int, ip: string, start: int, count: nat, id: int)
    | DeleteAllocation(a: int)
    | CreateServer(node: int, image: string, primary: int, ids: seq<int>, id: int)
    | CloneServer(source: int, a: int, id: int)
    | DeleteServer(id: int)
    | Transfer(server: int, node: int)

  predicate Accepted(db: Db, q: Request) {
    match q
    case AddNode(node) => node !in db.nodes
    case DeleteNode(node) => node in db.nodes && !HasServers(db, node) && !PrimaryOn(db, node)
    case CreateAllocations(node, _, _, _, id) => node in db.nodes && 0 < id && forall a :: a in db.allocs ==> a < id
    case DeleteAllocation(a) => a in db.allocs && db.allocs[a].server.None? && !IsPrimary(db, a)
    case CreateServer(node, image, primary, ids, id) => id !in db.servers && Creatable(db, node, image, primary, ids)
    case CloneServer(source, a, id) =>
      source in db.servers && db.servers[source].node in db.nodes && id !in db.servers && a != 0
      && Free(db.allocs, db.servers[source].node, a)
    case DeleteServer(id) => id in db.servers
    case Transfer(server, node) => server in db.servers && node in db.nodes && node != db.servers[server].node
  }

  function Do(db: Db, q: Request): Db
    requires Accepted(db, q)
  {
    match q
    case AddNode(node) => db.(nodes := db.nodes + {node})
    case DeleteNode(node) => DropNode(db, node)
    case CreateAllocations(node, ip, start, count, id) =>
      db.(allocs := AddPorts(db.allocs, node, ip, start, count, id).0)
    case DeleteAllocation(a) => db.(allocs := db.allocs - {a})
    case CreateServer(node, _, primary, ids, id) => AddServer(db, id, node, primary, ids)
    case CloneServer(source, a, id) => AddServer(db, id, db.servers[source].node, a, [])
    case DeleteServer(id) => Db(db.nodes, db.servers - {id}, Release(db.allocs, id))
    case Transfer(server, node) => db.(servers := db.servers[server := db.servers[server].(node := node)])
  }

  ghost predicate Run(dbs: seq<Db>, qs: seq<Request>) {
    && |dbs| == |qs| + 1 && dbs[0] == Db({}, map[], map[])
    && forall i :: 0 <= i < |qs| ==> Accepted(dbs[i], qs[i]) && dbs[i + 1] == Do(dbs[i], qs[i])
  }

  /** No two allocations have the same node, address and port. */
  ghost predicate Unique(allocs: Table) {
    forall a, b :: a in allocs && b in allocs && a != b ==>
      !(allocs[a].node == allocs[b].node && allocs[a].ip == allocs[b].ip && allocs[a].port == allocs[b].port)
  }

  /** Every allocation in use names a live server. */
  ghost predicate OwnersLive(db: Db) {
    forall a :: a in db.allocs && db.allocs[a].server.Some? ==> db.allocs[a].server.value in db.servers
  }

  /** Every server's primary allocation exists and is its own. */
  ghost predicate PrimariesOwned(db: Db) {
    forall s :: s in db.servers && db.servers[s].primary.Some? ==>
      db.servers[s].primary.value in db.allocs && db.allocs[db.servers[s].primary.value].server == Some(s)
  }

  /** A server's allocations lie on its own node. */
  ghost predicate SameNode(db: Db) {
    forall a :: a in db.allocs && db.allocs[a].server.Some? && db.allocs[a].server.value in db.servers ==>
      db.servers[db.allocs[a].server.value].node == db.allocs[a].node
  }

  ghost predicate Inv(db: Db) {
    Unique(db.allocs) && OwnersLive(db) && PrimariesOwned(db) && SameNode(db)
  }

  lemma {:induction false} AddPortsKeeps(was: Table, node: int, ip: string, start: int, n: nat, id: int)
    requires Unique(was) && forall a :: a in was ==> a < id
    ensures var r := AddPorts(was, node, ip, start, n, id);
            && id <= r.1 && Unique(r.0)
            && (forall a :: a in was ==> a in r.0 && r.0[a] == was[a])
            && (forall a :: a in r.0 && a !in was ==>
                  && id <= a < r.1 && r.0[a].node == node && r.0[a].ip == ip
                  && start <= r.0[a].port < start + n && r.0[a].server.None?)
            && (forall a :: a in r.0 ==> a < r.1)
  {
    if n > 0 {
      AddPortsKeeps(was, node, ip, start, n - 1, id);
    }
  }

  /** Every port of the requested range exists afterwards. */
  lemma {:induction false} AddPortsCovers(was: Table, node: int, ip: string, start: int, n: nat, id: int, i: nat)
    requires Unique(was) && (forall a :: a in was ==> a < id) && i < n
    ensures Exists(AddPorts(was, node, ip, start, n, id).0, node, ip, start + i)
  {
    AddPortsKeeps(was, node, ip, start, n - 1, id);
    var r, t := AddPorts(was, node, ip, start, n - 1, id), AddPorts(was, node, ip, start, n, id);
    if i < n - 1 {
      AddPortsCovers(was, node, ip, start, n - 1, id, i);
      ExistsLater(r.0, t.0, node, ip, start + i);
    } else if Exists(was, node, ip, start + i) {
      ExistsLater(was, t.0, node, ip, start + i);
    } else {
      assert t.0[r.1].port == start + i;
    }
  }

  lemma ExistsLater(before: Table, after: Table, node: int, ip: string, port: int)
    requires Exists(before, node, ip, port) && forall a :: a in before ==> a in after && after[a] == before[a]
    ensures Exists(after, node, ip, port)
  {
    var a :| a in before && before[a].node == node && before[a].ip == ip && before[a].port == port;
    assert a in after && after[a] == before[a];
  }

  lemma KeepsUnique(db: Db, q: Request)
    requires Unique(db.allocs) && Accepted(db, q)
    ensures Unique(Do(db, q).allocs)
  {
    if q.CreateAllocations? {
      AddPortsKeeps(db.allocs, q.node, q.ip, q.start, q.count, q.id);
    }
  }

  lemma KeepsOwnersLive(db: Db, q: Request)
    requires Unique(db.allocs) && OwnersLive(db) && Accepted(db, q)
    ensures OwnersLive(Do(db, q))
  {
    if q.CreateAllocations? {
      AddPortsKeeps(db.allocs, q.node, q.ip, q.start, q.count, q.id);
    }
  }

  lemma AddServerPrimaries(db: Db, id: int, node: int, primary: int, ids: seq<int>)
    requires PrimariesOwned(db) && id !in db.servers
    requires forall a :: a in Owned(primary, ids) ==> Free(db.allocs, node, a)
    ensures PrimariesOwned(AddServer(db, id, node, primary, ids))
  {
    var t := AddServer(db, id, node, primary, ids);
    forall s | s in t.servers && t.servers[s].primary.Some?
      ensures t.servers[s].primary.value in t.allocs && t.allocs[t.servers[s].primary.value].server == Some(s)
    {
      var a := t.servers[s].primary.value;
      if s == id {
        assert a in Owned(primary, ids) && Free(db.allocs, node, a);
      } else {
        assert !Free(db.allocs, node, a);
      }
    }
  }

  lemma KeepsPrimaries(db: Db, q: Request)
    requires Unique(db.allocs) && OwnersLive(db) && PrimariesOwned(db) && Accepted(db, q)
    ensures PrimariesOwned(Do(db, q))
  {
    if q.CreateAllocations? {
      AddPortsKeeps(db.allocs, q.node, q.ip, q.start, q.count, q.id);
    } else if q.CreateServer? {
      AddServerPrimaries(db, q.id, q.node, q.primary, q.ids);
    } else if q.CloneServer? {
      assert Owned(q.a, []) == {q.a};
      AddServerPrimaries(db, q.id, db.servers[q.source].node, q.a, []);
    } else if q.DeleteNode? {
      DropNodePrimaries(db, q.node);
    }
  }

  /** Dropping a node loses a primary allocation exactly when the database would refuse it. */
  lemma DropNodePrimaries(db: Db, node: int)
    requires PrimariesOwned(db)
    ensures PrimariesOwned(DropNode(db, node)) <==> !PrimaryOn(db, node)
  {
    var t := DropNode(db, node);
    if PrimaryOn(db, node) {
      var s :| s in db.servers && db.servers[s].primary.Some? && db.servers[s].primary.value in db.allocs
               && db.allocs[db.servers[s].primary.value].node == node;
      assert s in t.servers && t.servers[s].primary.value !in t.allocs;
    } else {
      forall s | s in db.servers && db.servers[s].primary.Some?
        ensures db.servers[s].primary.value in t.allocs && t.allocs[db.servers[s].primary.value].server == Some(s)
      {
        assert db.allocs[db.servers[s].primary.value].node != node;
      }
    }
  }

  lemma KeepsSameNode(db: Db, q: Request)
    requires Unique(db.allocs) && OwnersLive(db) && SameNode(db) && Accepted(db, q) && !q.Transfer?
    ensures SameNode(Do(db, q))
  {
    if q.CreateAllocations? {
      AddPortsKeeps(db.allocs, q.node, q.ip, q.start, q.count, q.id);
    }
  }

  /** Over every run of requests, transfers included: addresses are unique, owners live, and every
      server's primary allocation exists and is its own. */
  lemma {:induction false} LedgerRun(dbs: seq<Db>, qs: seq<Request>, n: nat)
    requires Run(dbs, qs) && n < |dbs|
    ensures Unique(dbs[n].allocs) && OwnersLive(dbs[n]) && PrimariesOwned(dbs[n])
  {
    if n > 0 {
      LedgerRun(dbs, qs, n - 1);
      KeepsUnique(dbs[n - 1], qs[n - 1]);
      KeepsOwnersLive(dbs[n - 1], qs[n - 1]);
      KeepsPrimaries(dbs[n - 1], qs[n - 1]);
    }
  }

  /** So the database never has to refuse deleting a free allocation. */
  lemma FreeNotPrimary(dbs: seq<Db>, qs: seq<Request>, n: nat, a: int)
    requires Run(dbs, qs) && n < |dbs| && a in dbs[n].allocs && dbs[n].allocs[a].server.None?
    ensures Accepted(dbs[n], DeleteAllocation(a))
  {
    LedgerRun(dbs, qs, n);
  }

  /** Over every transfer-free run a server's allocations also lie on its own node. */
  lemma {:induction false} TransferFreeRun(dbs: seq<Db>, qs: seq<Request>, n: nat)
    requires Run(dbs, qs) && n < |dbs| && forall i :: 0 <= i < n ==> !qs[i].Transfer?
    ensures Inv(dbs[n])
  {
    LedgerRun(dbs, qs, n);
    if n > 0 {
      TransferFreeRun(dbs, qs, n - 1);
      KeepsSameNode(dbs[n - 1], qs[n - 1]);
    }
  }

  /** Every allocation and every server is on a live node. */
  ghost predicate NodesLive(db: Db) {
    && (forall a :: a in db.allocs ==> db.allocs[a].node in db.nodes)
    && (forall s :: s in db.servers ==> db.servers[s].node in db.nodes)
  }

  lemma KeepsNodesLive(db: Db, q: Request)
    requires Unique(db.allocs) && NodesLive(db) && Accepted(db, q)
    ensures NodesLive(Do(db, q))
  {
    if q.CreateAllocations? {
      AddPortsKeeps(db.allocs, q.node, q.ip, q.start, q.count, q.id);
    } else if q.DeleteNode? {
      assert forall s :: s in db.servers ==> (db.servers[s].node == q.node ==> HasServers(db, q.node));
    }
  }

  /** Over every run every allocation and every server is on a node that exists. */
  lemma {:induction false} NodesLiveRun(dbs: seq<Db>, qs: seq<Request>, n: nat)
    requires Run(dbs, qs) && n < |dbs|
    ensures NodesLive(dbs[n])
  {
    if n > 0 {
      NodesLiveRun(dbs, qs, n - 1);
      LedgerRun(dbs, qs, n - 1);
      KeepsNodesLive(dbs[n - 1], qs[n - 1]);
    }
  }

  /** Who owns allocation `a` after the request. */
  function OwnerAfter(db: Db, q: Request, a: int): Option<int>
    requires a in db.allocs
  {
    if q.CreateServer? && (a in q.ids || (a == q.primary && a != 0)) then Some(q.id)
    else if q.CloneServer? && a == q.a then Some(q.id)
    else if q.DeleteServer? && db.allocs[a].server == Some(q.id) then None
    else db.allocs[a].server
  }

  /** What each request does to the allocation rows, row by row: nothing but this. */
  lemma RowsAfter(db: Db, q: Request, a: int)
    requires Accepted(db, q) && !q.CreateAllocations? && a in db.allocs
    ensures var t := Do(db, q).allocs;
            a !in t <==> (q.DeleteNode? && db.allocs[a].node == q.node) || (q.DeleteAllocation? && q.a == a)
    ensures a in Do(db, q).allocs ==> Do(db, q).allocs[a].server == OwnerAfter(db, q, a)
  {
    if q.CreateServer? {
      RequestedIds(q.primary, q.ids, a);
    } else if q.CloneServer? {
      assert Owned(q.a, []) == {q.a};
    }
  }

  lemma RequestedIds(primary: int, ids: seq<int>, a: int)
    ensures a in Owned(primary, ids) <==> a in ids || (a == primary && a != 0)
  {
    if a in ids {
      var k :| 0 <= k < |ids| && ids[k] == a;
      assert !Skips(primary, ids[k]) ==> a in Wanted(primary, ids);
    }
  }

  /** No request removes an owned allocation but the deletion of its node. */
  lemma OwnedStays(db: Db, q: Request, a: int)
    requires Unique(db.allocs) && Accepted(db, q) && a in db.allocs && db.allocs[a].server.Some?
    ensures a !in Do(db, q).allocs <==> q == DeleteNode(db.allocs[a].node)
  {
    if q.CreateAllocations? {
      AddPortsKeeps(db.allocs, q.node, q.ip, q.start, q.count, q.id);
    } else {
      RowsAfter(db, q, a);
    }
  }

  /** And what it does to the servers. */
  lemma ServersAfter(db: Db, q: Request, s: int)
    requires Accepted(db, q)
    ensures var t := Do(db, q).servers;
            s in t <==> (s in db.servers && q != DeleteServer(s))
                        || (q.CreateServer? && s == q.id) || (q.CloneServer? && s == q.id)
    ensures q.CreateServer? ==> Do(db, q).servers[q.id].node == q.node
    ensures q.CreateServer? ==>
              Do(db, q).servers[q.id].primary == if q.primary == 0 then None else Some(q.primary)
    ensures q.CloneServer? ==> Do(db, q).servers[q.id] == Server(db.servers[q.source].node, Some(q.a))
    ensures q.Transfer? ==> Do(db, q).servers[q.server] == Server(q.node, db.servers[q.server].primary)
    ensures s in db.servers && s in Do(db, q).servers && q != Transfer(s, Do(db, q).servers[s].node) ==>
              Do(db, q).servers[s] == db.servers[s]
  {
  }

  /** And to the nodes. */
  lemma NodesAfter(db: Db, q: Request, node: int)
    requires Accepted(db, q)
    ensures node in Do(db, q).nodes <==> (node in db.nodes && q != DeleteNode(node)) || q == AddNode(node)
  {
  }

  /** What an accepted creation has asked for: an image with a visible character, on a node there is,
      and allocations that are free ones of that node, each named once. */
  lemma AcceptedCreation(db: Db, node: int, image: string, primary: int, ids: seq<int>, id: int)
    ensures Accepted(db, CreateServer(node, image, primary, ids, id))
       <==> && id !in db.servers && node in db.nodes && (exists k :: 0 <= k < |image| && !IsSpace(image[k]))
            && (forall a :: a in ids || (a == primary && a != 0) ==>
                  a in db.allocs && db.allocs[a].node == node && db.allocs[a].server.None?)
            && (forall i, j :: 0 <= i < j < |ids| && ids[i] == ids[j] ==> ids[i] == primary && primary != 0)
  {
    forall a ensures a in Owned(primary, ids) <==> a in ids || (a == primary && a != 0) {
      RequestedIds(primary, ids, a);
    }
    if Creatable(db, node, image, primary, ids) {
      forall a | a in ids || (a == primary && a != 0)
        ensures a in db.allocs && db.allocs[a].node == node && db.allocs[a].server.None?
      {
        assert a in Owned(primary, ids) && Free(db.allocs, node, a);
      }
    }
    if primary != 0 {
      assert primary in Owned(primary, ids);
    }
  }

  // ---------------------------------------------------------------- runs with transfers

  /** The server holds an allocation. */
  ghost predicate Holds(db: Db, server: int) {
    exists a :: a in db.allocs && db.allocs[a].server == Some(server)
  }

  /** A server and its allocations part company exactly when one that holds some is transferred. */
  lemma SameNodeIff(db: Db, q: Request)
    requires Unique(db.allocs) && OwnersLive(db) && SameNode(db) && Accepted(db, q)
    ensures SameNode(Do(db, q)) <==> !(q.Transfer? && Holds(db, q.server))
  {
    if q.Transfer? {
      if Holds(db, q.server) {
        var a :| a in db.allocs && db.allocs[a].server == Some(q.server);
        assert Do(db, q).allocs[a].server == Some(q.server);
      }
    } else {
      KeepsSameNode(db, q);
    }
  }

  /** The node on which each server was created, `n` requests into a run. */
  function Homes(dbs: seq<Db>, qs: seq<Request>, n: nat): map<int, int>
    requires n <= |qs| && |dbs| == |qs| + 1
  {
    if n == 0 then map[] else Settle(Homes(dbs, qs, n - 1), dbs[n - 1], qs[n - 1])
  }

  function Settle(homes: map<int, int>, db: Db, q: Request): map<int, int> {
    if q.CreateServer? then homes[q.id := q.node]
    else if q.CloneServer? && q.source in db.servers then homes[q.id := db.servers[q.source].node]
    else homes
  }

  /** Every server's allocations lie on the node it was created on. */
  ghost predicate AtHome(db: Db, homes: map<int, int>) {
    && db.servers.Keys <= homes.Keys
    && forall a :: a in db.allocs && db.allocs[a].server.Some? && db.allocs[a].server.value in homes ==>
         homes[db.allocs[a].server.value] == db.allocs[a].node
  }

  lemma KeepsAtHome(db: Db, q: Request, homes: map<int, int>)
    requires Unique(db.allocs) && OwnersLive(db) && AtHome(db, homes) && Accepted(db, q)
    ensures AtHome(Do(db, q), Settle(homes, db, q))
  {
    if q.CreateAllocations? {
      AddPortsKeeps(db.allocs, q.node, q.ip, q.start, q.count, q.id);
    } else if q.CreateServer? {
      AddServerAtHome(db, q.id, q.node, q.primary, q.ids, homes);
    } else if q.CloneServer? {
      assert Owned(q.a, []) == {q.a};
      AddServerAtHome(db, q.id, db.servers[q.source].node, q.a, [], homes);
    }
  }

  lemma AddServerAtHome(db: Db, id: int, node: int, primary: int, ids: seq<int>, homes: map<int, int>)
    requires OwnersLive(db) && AtHome(db, homes) && id !in db.servers
    requires forall a :: a in Owned(primary, ids) ==> Free(db.allocs, node, a)
    ensures AtHome(AddServer(db, id, node, primary, ids), homes[id := node])
  {
  }

  /** Over every run, transfers included, a server's allocations stay on the node it was created on. */
  lemma {:induction false} HomeRun(dbs: seq<Db>, qs: seq<Request>, n: nat)
    requires Run(dbs, qs) && n < |dbs|
    ensures AtHome(dbs[n], Homes(dbs, qs, n))
  {
    if n > 0 {
      HomeRun(dbs, qs, n - 1);
      LedgerRun(dbs, qs, n - 1);
      KeepsAtHome(dbs[n - 1], qs[n - 1], Homes(dbs, qs, n - 1));
    }
  }

  lemma PrimaryAtHome(db: Db, homes: map<int, int>, node: int)
    requires PrimariesOwned(db) && AtHome(db, homes)
    ensures PrimaryOn(db, node)
       <==> exists s :: s in db.servers && db.servers[s].primary.Some? && s in homes && homes[s] == node
  {
    forall s | s in db.servers && db.servers[s].primary.Some?
      ensures s in homes && homes[s] == db.allocs[db.servers[s].primary.value].node
    {
      var a := db.servers[s].primary.value;
      assert s in db.servers.Keys;
      assert a in db.allocs && db.allocs[a].server == Some(s);
      assert homes[db.allocs[a].server.value] == db.allocs[a].node;
    }
  }

  /** Over every run, a node without servers can be deleted if and only if no live server that has a
      primary allocation was created on it. */
  lemma DeleteNodeIff(dbs: seq<Db>, qs: seq<Request>, n: nat, node: int)
    requires Run(dbs, qs) && n < |dbs| && node in dbs[n].nodes && !HasServers(dbs[n], node)
    ensures var db, homes := dbs[n], Homes(dbs, qs, n);
            Accepted(db, DeleteNode(node))
            <==> forall s :: s in db.servers && s in homes && homes[s] == node ==> db.servers[s].primary.None?
  {
    LedgerRun(dbs, qs, n);
    HomeRun(dbs, qs, n);
    PrimaryAtHome(dbs[n], Homes(dbs, qs, n), node);
  }

  /** Over every run, deleting a node removes an owned allocation if and only if a server created
      on that node still holds one; that server has no primary allocation and was transferred away. */
  lemma DeleteNodeSpares(dbs: seq<Db>, qs: seq<Request>, n: nat, node: int)
    requires Run(dbs, qs) && n < |dbs| && Accepted(dbs[n], DeleteNode(node))
    ensures var db, homes := dbs[n], Homes(dbs, qs, n);
            var t := Do(db, DeleteNode(node));
            && db.servers.Keys <= homes.Keys
            && ((exists a :: a in db.allocs && a !in t.allocs && db.allocs[a].server.Some?)
                <==> exists s :: s in db.servers && homes[s] == node && Holds(db, s))
            && forall s :: s in db.servers && homes[s] == node ==>
                 db.servers[s].node != node && db.servers[s].primary.None?
  {
    var db, homes := dbs[n], Homes(dbs, qs, n);
    var t := Do(db, DeleteNode(node));
    HomeRun(dbs, qs, n);
    LedgerRun(dbs, qs, n);
    DeleteNodeIff(dbs, qs, n, node);
    if a :| a in db.allocs && a !in t.allocs && db.allocs[a].server.Some? {
      assert Holds(db, db.allocs[a].server.value);
    }
    if s :| s in db.servers && homes[s] == node && Holds(db, s) {
      var a :| a in db.allocs && db.allocs[a].server == Some(s);
      assert a !in t.allocs;
    }
    assert forall s :: s in db.servers && db.servers[s].node == node ==> HasServers(db, node);
  }

  function TransferState(k: nat): Db {
    var server, free := Server(1, None), Alloc(1, "0.0.0.0", 25565, None);
    var owned := free.(server := Some(7));
    match k
    case 0 => Db({}, map[], map[])
    case 1 => Db({1}, map[], map[])
    case 2 => Db({1, 2}, map[], map[])
    case 3 => Db({1, 2}, map[], map[3 := free])
    case 4 => Db({1, 2}, map[7 := server], map[3 := owned])
    case 5 => Db({1, 2}, map[7 := server.(node := 2)], map[3 := owned])
    case _ => Db({2}, map[7 := server.(node := 2)], map[])
  }

  function TransferRequest(k: nat): Request {
    match k
    case 0 => AddNode(1)
    case 1 => AddNode(2)
    case 2 => CreateAllocations(1, "0.0.0.0", 25565, 1, 3)
    case 3 => CreateServer(1, "image", 0, [3], 7)
    case 4 => Transfer(7, 2)
    case _ => DeleteNode(1)
  }

  predicate TransferStep(k: nat) {
    Accepted(TransferState(k), TransferRequest(k)) && Do(TransferState(k), TransferRequest(k)) == TransferState(k + 1)
  }

  lemma FirstTransferSteps()
    ensures TransferStep(0) && TransferStep(1) && TransferStep(2)
  {
    var was := TransferState(2).allocs;
    assert !Exists(was, 1, "0.0.0.0", 25565);
    assert AddPorts(was, 1, "0.0.0.0", 25565, 0, 3) == (was, 3);
  }

  lemma LastTransferSteps()
    ensures TransferStep(3) && TransferStep(4) && TransferStep(5)
  {
    assert "image"[0] == 'i';
    var ids := [3];
    assert Wanted(0, ids) == {3} by {
      assert ids[0] == 3 && !Skips(0, ids[0]);
    }
    assert Owned(0, ids) == {3};
    assert Do(TransferState(3), TransferRequest(3)).allocs == TransferState(4).allocs;
    assert Do(TransferState(5), TransferRequest(5)).allocs == TransferState(6).allocs;
  }

  /** With a transfer the same-node clause fails: a server created on node 1 with an allocation there,
      but no primary one, is moved to node 2; deleting node 1 then removes its allocation. */
  lemma TransferWitness() returns (dbs: seq<Db>, qs: seq<Request>)
    ensures Run(dbs, qs) && |qs| == 6 && qs[4] == Transfer(7, 2) && qs[5] == DeleteNode(1)
    ensures 3 in dbs[5].allocs && dbs[5].allocs[3].server == Some(7) && !SameNode(dbs[5])
    ensures 7 in dbs[6].servers && 3 !in dbs[6].allocs
  {
    dbs := seq(7, k requires 0 <= k < 7 => TransferState(k));
    qs := seq(6, k requires 0 <= k < 6 => TransferRequest(k));
    FirstTransferSteps();
    LastTransferSteps();
    forall k | 0 <= k < 6 ensures Accepted(dbs[k], qs[k]) && dbs[k + 1] == Do(dbs[k], qs[k]) {
      assert TransferStep(k);
    }
    assert dbs[5].servers[7].node == 2 && dbs[5].allocs[3].node == 1;
  }

  /** Deleting a server just created restores the tables. */
  lemma CreateThenDelete(db: Db, node: int, image: string, primary: int, ids: seq<int>, id: int)
    requires OwnersLive(db) && Accepted(db, CreateServer(node, image, primary, ids, id))
    ensures var created := Do(db, CreateServer(node, image, primary, ids, id));
            Accepted(created, DeleteServer(id)) && Do(created, DeleteServer(id)) == db
  {
    var created := Do(db, CreateServer(node, image, primary, ids, id));
    var t := Do(created, DeleteServer(id));
    assert t.servers == db.servers;
    forall a | a in db.allocs ensures t.allocs[a] == db.allocs[a] {
      if a in Owned(primary, ids) {
        assert Free(db.allocs, node, a);
      } else {
        assert db.allocs[a].server != Some(id);
      }
    }
    assert t.allocs == db.allocs;
  }

  /** No request of a run creates or removes an allocation row but those that say so, and none
      changes its address. */
  lemma AddressesKept(db: Db, q: Request)
    requires Unique(db.allocs) && Accepted(db, q) && !q.DeleteNode? && !q.DeleteAllocation?
    ensures forall a :: a in db.allocs ==>
              var t := Do(db, q).allocs;
              a in t && t[a].node == db.allocs[a].node && t[a].ip == db.allocs[a].ip && t[a].port == db.allocs[a].port
    ensures !q.CreateAllocations? ==> Do(db, q).allocs.Keys == db.allocs.Keys
  {
    if q.CreateAllocations? {
      AddPortsKeeps(db.allocs, q.node, q.ip, q.start, q.count, q.id);
    }
  }
}
