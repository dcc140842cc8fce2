/** What runs keep of one key at one node, as long as nothing disturbs it. */
module IndexKeys {
  import opened Repos
  import opened IndexServer
  import opened IndexNet
  import opened IndexInvariant

  /** Between finding its key absent and being done. */
  predicate Owning(r: Request) {
    r.phase != Looking && r.phase != Done
  }

  predicate HasMarker(r: Request) {
    r.phase.Waiting? || r.phase.Unserviceable? || r.phase.Answered?
  }

  /** What the store holds under the key of a request, by the request's phase. */
  ghost predicate StoreOk(r: Request, m: MaybeRepo) {
    && (r.phase == Absent ==> m == NoRepo)
    && (HasMarker(r) ==> HasState(m, INDEXING))
    && (r.phase == Clearing ==> m == NoRepo || HasState(m, INDEXING) || HasState(m, OK))
    && (r.phase == Clearing && HasState(r.result.repo, OK) ==> m == r.result.repo)
  }

  ghost predicate InFlight(net: Net, node: Node, key: string) {
    exists i :: 0 <= i < |net.requests| && Owning(net.requests[i]) && Same(net.requests[i], node, key)
  }

  ghost predicate StoresOk(net: Net, node: Node, key: string) {
    forall i :: 0 <= i < |net.requests| && Same(net.requests[i], node, key) ==>
      StoreOk(net.requests[i], At(net, node, key))
  }

  /** No two requests in flight for the key at the node. */
  ghost predicate Exclusive(net: Net, node: Node, key: string) {
    forall i, j :: 0 <= i < j < |net.requests| && Owning(net.requests[i]) && Owning(net.requests[j]) ==>
      !(Same(net.requests[i], node, key) && Same(net.requests[j], node, key))
  }

  ghost predicate KeyInv(net: Net, node: Node, key: string) {
    StoresOk(net, node, key) && Exclusive(net, node, key)
  }

  // ----- searches and deletions

  /** A search or deletion that leaves an OK repository as it is: it does not name it, or it is told of the very
      same repository, or of a state that is not OK while deletion is off. */
  predicate Harmless(t: Topology, a: Action, node: Node, key: string, repo: Repo) {
    match a
    case Report(n, updates) =>
      n == node && key in updates ==>
        if updates[key].state == OK then updates[key] == repo else !t.deleteOnError(node)
    case Fault(n, other) => !(n == node && other.key == key)
    case Remove(n, k) => !(n == node && k == key)
    case _ => true
  }

  /** Exactly the harmless writes of searches and deletions leave an OK repository as it is. */
  lemma OutsideKeepsIff(t: Topology, net: Net, a: Action, node: Node, key: string, repo: Repo)
    requires Enabled(t, net, a) && (a.Report? || a.Fault? || a.Remove?)
    requires At(net, node, key) == SomeRepo(repo) && repo.state == OK
    ensures At(Step(t, net, a), node, key) == SomeRepo(repo) <==> Harmless(t, a, node, key, repo)
  {
  }

  // ----- the condition on a run

  /** A second request for the key at the node finds the key absent while another is in flight. */
  ghost predicate SecondLookup(net: Net, a: Action, node: Node, key: string) {
    && a.Lookup? && a.i < |net.requests| && Same(net.requests[a.i], node, key) && net.requests[a.i].q.valid
    && At(net, node, key) == NoRepo
    && exists j :: 0 <= j < |net.requests| && j != a.i && Owning(net.requests[j]) && Same(net.requests[j], node, key)
  }

  /** A search or deletion writes what is there, an OK repository. */
  ghost predicate Confirms(t: Topology, net: Net, a: Action, node: Node, key: string) {
    HasState(At(net, node, key), OK) && Harmless(t, a, node, key, At(net, node, key).repo)
  }

  ghost predicate Disturbs(t: Topology, net: Net, a: Action, node: Node, key: string) {
    || (OutsideWrite(t, a, node, key) && !Confirms(t, net, a, node, key))
    || SecondLookup(net, a, node, key)
  }

  /** In this run no search or deletion changes the key at the node, and no second request for it looks it up in
      vain. */
  ghost predicate Calm(t: Topology, net: Net, run: seq<Action>, node: Node, key: string)
    requires Schedule(t, net, run)
    decreases run
  {
    run == [] || (!Disturbs(t, net, run[0], node, key) && Calm(t, Step(t, net, run[0]), run[1..], node, key))
  }

  /** What is not disturbed, and not written by the acting request, stays. */
  lemma CalmFrame(t: Topology, net: Net, a: Action, node: Node, key: string)
    requires Enabled(t, net, a) && !Disturbs(t, net, a, node, key)
    requires (Acts(a) ==> AnswerOk(net.requests[Actor(a)])) && (Writes(a) ==> !Same(net.requests[Actor(a)], node, key))
    ensures At(Step(t, net, a), node, key) == At(net, node, key)
  {
    hide Step, At, Enabled, AnswerOk, Harmless, SecondLookup;
    if OutsideWrite(t, a, node, key) {
      OutsideKeepsIff(t, net, a, node, key, At(net, node, key).repo);
    } else {
      StepFrame(t, net, a, node, key);
    }
  }

  lemma InitialKey(net: Net, node: Node, key: string)
    requires Initial(net)
    ensures KeyInv(net, node, key)
  {
  }

  // ----- the acting request

  lemma ActorStore(t: Topology, net: Net, a: Action)
    requires Enabled(t, net, a) && Acts(a) && AnswerOk(net.requests[Actor(a)])
    requires var r := net.requests[Actor(a)]; StoreOk(r, At(net, r.node, r.q.key))
    ensures var r := Step(t, net, a).requests[Actor(a)]; StoreOk(r, At(Step(t, net, a), r.node, r.q.key))
  {
    hide Possible;
  }

  lemma WriterOwns(t: Topology, net: Net, a: Action)
    requires Enabled(t, net, a) && Writes(a)
    ensures Owning(net.requests[Actor(a)])
  {
  }

  lemma IdleOk(r: Request, m: MaybeRepo)
    requires !Owning(r)
    ensures StoreOk(r, m)
  {
  }

  lemma OneOwner(net: Net, node: Node, key: string, i: nat, j: nat)
    requires Exclusive(net, node, key) && i < |net.requests| && j < |net.requests| && i != j
    requires Same(net.requests[i], node, key) && Same(net.requests[j], node, key) && Owning(net.requests[i])
    ensures !Owning(net.requests[j])
  {
  }

  /** A request that does not act keeps what it expects of the store. */
  lemma BystanderOk(t: Topology, net: Net, a: Action, node: Node, key: string, j: nat)
    requires Keyed(net) && StoresOk(net, node, key) && Exclusive(net, node, key) && Enabled(t, net, a)
    requires !Disturbs(t, net, a, node, key)
    requires j < |net.requests| && Same(net.requests[j], node, key) && (!Acts(a) || j != Actor(a))
    ensures StoreOk(net.requests[j], At(Step(t, net, a), node, key))
  {
    hide Step, Enabled, At, StoreOk, Exclusive, Disturbs, AnswerOk, KeyedBy;
    if Acts(a) {
      ActorBound(t, net, a);
      assert AnswerOk(net.requests[Actor(a)]);
    }
    if Writes(a) && Same(net.requests[Actor(a)], node, key) {
      WriterOwns(t, net, a);
      OneOwner(net, node, key, Actor(a), j);
      IdleOk(net.requests[j], At(Step(t, net, a), node, key));
    } else {
      CalmFrame(t, net, a, node, key);
    }
  }

  lemma StepStoresOk(t: Topology, net: Net, a: Action, node: Node, key: string)
    requires Keyed(net) && StoresOk(net, node, key) && Exclusive(net, node, key)
    requires Enabled(t, net, a) && !Disturbs(t, net, a, node, key)
    ensures StoresOk(Step(t, net, a), node, key)
  {
    hide Step, Enabled, At, StoreOk, Exclusive, Disturbs, AnswerOk, KeyedBy;
    var net' := Step(t, net, a);
    StepSize(t, net, a);
    forall j | 0 <= j < |net'.requests| && Same(net'.requests[j], node, key)
      ensures StoreOk(net'.requests[j], At(net', node, key))
    {
      if j == |net.requests| {
        NewRequest(t, net, a);
        IdleOk(net'.requests[j], At(net', node, key));
      } else {
        StepRequests(t, net, a, j);
        if Acts(a) && j == Actor(a) {
          assert AnswerOk(net.requests[j]);
          ActorStore(t, net, a);
        } else {
          BystanderOk(t, net, a, node, key, j);
        }
      }
    }
  }

  // ----- one owner

  lemma StepOwning(t: Topology, net: Net, a: Action, j: nat)
    requires Enabled(t, net, a) && j < |Step(t, net, a).requests| && Owning(Step(t, net, a).requests[j])
    ensures j < |net.requests|
    ensures Owning(net.requests[j]) ||
            (a == Lookup(j) && net.requests[j].q.valid
             && At(net, net.requests[j].node, net.requests[j].q.key) == NoRepo)
  {
  }

  lemma SecondSeen(net: Net, a: Action, node: Node, key: string, i: nat, j: nat)
    requires i < |net.requests| && j < |net.requests| && i != j && a == Lookup(i) && net.requests[i].q.valid
    requires Same(net.requests[i], node, key) && Same(net.requests[j], node, key) && Owning(net.requests[j])
    requires At(net, node, key) == NoRepo
    ensures SecondLookup(net, a, node, key)
  {
  }

  lemma StepExclusive(t: Topology, net: Net, a: Action, node: Node, key: string)
    requires Exclusive(net, node, key) && Enabled(t, net, a) && !SecondLookup(net, a, node, key)
    ensures Exclusive(Step(t, net, a), node, key)
  {
    hide Step, Enabled, SecondLookup, At, Owning;
    var net' := Step(t, net, a);
    forall i, j | 0 <= i < j < |net'.requests| && Owning(net'.requests[i]) && Owning(net'.requests[j])
      ensures !(Same(net'.requests[i], node, key) && Same(net'.requests[j], node, key))
    {
      StepOwning(t, net, a, i);
      StepOwning(t, net, a, j);
      StepRequests(t, net, a, i);
      StepRequests(t, net, a, j);
      if Same(net.requests[i], node, key) && Same(net.requests[j], node, key) {
        if !Owning(net.requests[i]) {
          SecondSeen(net, a, node, key, i, j);
        } else if !Owning(net.requests[j]) {
          SecondSeen(net, a, node, key, j, i);
        }
      }
    }
  }

  // ----- every undisturbed run

  lemma StepKey(t: Topology, net: Net, a: Action, node: Node, key: string)
    requires Keyed(net) && KeyInv(net, node, key) && Enabled(t, net, a) && !Disturbs(t, net, a, node, key)
    ensures KeyInv(Step(t, net, a), node, key)
  {
    hide Step, Enabled, Keyed, StoresOk, Exclusive, OutsideWrite, Confirms, SecondLookup;
    StepStoresOk(t, net, a, node, key);
    StepExclusive(t, net, a, node, key);
  }

  lemma {:induction false} RunKey(t: Topology, net: Net, run: seq<Action>, node: Node, key: string)
    requires Inv(t, net) && KeyInv(net, node, key) && Schedule(t, net, run) && Calm(t, net, run, node, key)
    ensures KeyInv(Exec(t, net, run), node, key)
    decreases run
  {
    hide Step, Enabled, Inv, KeyInv, Disturbs;
    if run != [] {
      assert Keyed(net) by { KeyedOf(t, net); }
      StepKey(t, net, run[0], node, key);
      StepInv(t, net, run[0]);
      RunKey(t, Step(t, net, run[0]), run[1..], node, key);
    }
  }

  lemma KeyedOf(t: Topology, net: Net)
    requires Inv(t, net)
    ensures Keyed(net)
  {
  }
}
