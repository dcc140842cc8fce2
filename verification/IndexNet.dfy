/** Index requests in a network of nodes: interleaved, relayed one hop, with markers in the nodes' stores, and
    with everything else that writes the stores going on meanwhile. */
module IndexNet {
  import opened Repos
  import opened IndexServer
  import DoSearch

  type Node = string

  /** Who is local to whom, and which node answers at a host's address. Any configuration is allowed. */
  datatype Topology = Topology(isLocal: (Node, string) -> bool, route: string -> Node, deleteOnError: Node -> bool)

  datatype Relayed = NotRelayed | RelayedAs(child: nat)

  datatype Phase =
    | Looking                    // the store has not been consulted
    | Absent                     // it has, and the key was not there
    | Waiting(relayed: Relayed)  // the marker is set, the call is being made
    | Unserviceable              // the marker is set, there is no call to make
    | Answered(o: Outcome)
    | Clearing                   // the deferred cleanup is left to do
    | Done

  datatype Caller = Client | RelayOf(parent: nat)

  datatype Request = Request(node: Node, q: IndexQuery, caller: Caller, phase: Phase, result: IndexResult)

  datatype Net = Net(stores: map<Node, Store>, requests: seq<Request>)

  /** Steps of index requests and, last, the writes of searches and deletions: what a finished search has been told
      of repositories, a search that finds a shard unreadable of a repository it holds, a request to delete. */
  datatype Action =
    | Arrive(node: Node, q: IndexQuery)
    | Lookup(i: nat)
    | SetMarker(i: nat)
    | Relay(i: nat)
    | Reply(i: nat, o: Outcome)
    | Finish(i: nat)
    | Clear(i: nat)
    | Report(node: Node, updates: DoSearch.Reports)
    | Fault(node: Node, repo: Repo)
    | Remove(node: Node, key: string)

  predicate In(net: Net, i: nat) {
    i < |net.requests| && net.requests[i].node in net.stores
  }

  predicate IsLocalRequest(t: Topology, r: Request) {
    t.isLocal(r.node, MetaHost(r.q.meta))
  }

  /** What the call can come to: a timeout or a nil result at any time; of a local call, no repository or one
      with the requested key; of a relayed call, what the other node answered, or a connection error. */
  predicate Possible(t: Topology, net: Net, i: nat, o: Outcome)
    requires In(net, i) && net.requests[i].phase.Waiting?
  {
    var r := net.requests[i];
    match o
    case TimedOut => true
    case NilResult => true
    case Answer(result) =>
      if IsLocalRequest(t, r) then result.repo.SomeRepo? ==> result.repo.repo.key == r.q.key
      else
        || result.repo.NoRepo?
        || (r.phase.relayed.RelayedAs? && r.phase.relayed.child < |net.requests|
            && net.requests[r.phase.relayed.child].phase == Done
            && net.requests[r.phase.relayed.child].result == result)
  }

  predicate Enabled(t: Topology, net: Net, a: Action) {
    match a
    case Arrive(node, q) => node in net.stores
    case Lookup(i) => In(net, i) && net.requests[i].phase == Looking
    case SetMarker(i) => In(net, i) && net.requests[i].phase == Absent
    case Relay(i) =>
      In(net, i) && net.requests[i].phase == Waiting(NotRelayed) && !IsLocalRequest(t, net.requests[i])
      && t.route(MetaHost(net.requests[i].q.meta)) in net.stores
    case Reply(i, o) => In(net, i) && net.requests[i].phase.Waiting? && Possible(t, net, i, o)
    case Finish(i) => In(net, i) && (net.requests[i].phase.Answered? || net.requests[i].phase.Unserviceable?)
    case Clear(i) => In(net, i) && net.requests[i].phase == Clearing
    case Report(node, updates) => node in net.stores && forall key :: key in updates ==> updates[key].key == key
    case Fault(node, _) => node in net.stores
    case Remove(node, _) => node in net.stores
  }

  function SetRequest(net: Net, i: nat, r: Request): Net
    requires i < |net.requests|
  {
    net.(requests := net.requests[i := r])
  }

  function SetStore(net: Net, node: Node, store: Store): Net {
    net.(stores := net.stores[node := store])
  }

  /** A shard cannot be read: the repository goes, or is stored as failed. */
  function Faulted(store: Store, repo: Repo, delete: bool): Store {
    if delete then store - {repo.key} else store[repo.key := repo.(state := ERROR)]
  }

  /** The relayed query: recursion is disabled. */
  function RelayQuery(q: IndexQuery): IndexQuery {
    q.(recurse := false)
  }

  function Step(t: Topology, net: Net, a: Action): Net
    requires Enabled(t, net, a)
  {
    match a
    case Arrive(node, q) =>
      net.(requests := net.requests + [Request(node, q, Client, Looking, IndexResult(NoRepo, ""))])
    case Lookup(i) =>
      var r := net.requests[i];
      var store := net.stores[r.node];
      if r.q.key in store then
        SetRequest(net, i, r.(phase := Done, result := IndexResult(SomeRepo(store[r.q.key]), "")))
      else if !r.q.valid then
        SetRequest(net, i, r.(phase := Done, result := IndexResult(NoRepo, "value_error")))
      else SetRequest(net, i, r.(phase := Absent))
    case SetMarker(i) =>
      var r := net.requests[i];
      var phase := if IsLocalRequest(t, r) || r.q.recurse then Waiting(NotRelayed) else Unserviceable;
      SetStore(SetRequest(net, i, r.(phase := phase)), r.node, Mark(net.stores[r.node], r.q))
    case Relay(i) =>
      var r := net.requests[i];
      var child := Request(t.route(MetaHost(r.q.meta)), RelayQuery(r.q), RelayOf(i), Looking, IndexResult(NoRepo, ""));
      net.(requests := net.requests[i := r.(phase := Waiting(RelayedAs(|net.requests|)))] + [child])
    case Reply(i, o) => SetRequest(net, i, net.requests[i].(phase := Answered(o)))
    case Finish(i) =>
      var r := net.requests[i];
      var store := net.stores[r.node];
      if r.phase.Unserviceable? then
        SetStore(SetRequest(net, i, r.(phase := Clearing, result := IndexResult(NoRepo, "rpc_client_unavailable"))),
                 r.node, store - {r.q.key})
      else
        SetStore(SetRequest(net, i, r.(phase := Clearing, result := ResultOf(r.phase.o))), r.node,
                 Conclude(store, r.q.key, r.phase.o, t.deleteOnError(r.node)))
    case Clear(i) =>
      var r := net.requests[i];
      SetStore(SetRequest(net, i, r.(phase := Done)), r.node, Cleanup(net.stores[r.node], r.q.key))
    case Report(node, updates) =>
      SetStore(net, node, DoSearch.StoreAfter(net.stores[node], updates, t.deleteOnError(node)))
    case Fault(node, repo) => SetStore(net, node, Faulted(net.stores[node], repo, t.deleteOnError(node)))
    case Remove(node, key) => SetStore(net, node, net.stores[node] - {key})
  }

  predicate Schedule(t: Topology, net: Net, run: seq<Action>)
    decreases run
  {
    run == [] || (Enabled(t, net, run[0]) && Schedule(t, Step(t, net, run[0]), run[1..]))
  }

  function Exec(t: Topology, net: Net, run: seq<Action>): Net
    requires Schedule(t, net, run)
    decreases run
  {
    if run == [] then net else Exec(t, Step(t, net, run[0]), run[1..])
  }
}
