/** Runs in which nothing interferes: the steps of one request come to what serving it in one go comes to, at one
    node, and over a front end and a back end. */
module IndexAlone {
  import opened Repos
  import opened IndexServer
  import opened IndexNet
  import opened IndexInvariant

  /** The network with another state of one request, and another store at its node. */
  function Put(net: Net, i: nat, r: Request, store: Store): Net
    requires i < |net.requests|
  {
    Net(net.stores[r.node := store], net.requests[i := r])
  }

  /** What is in a store that did not hold the key when the request is done. */
  function StoreThen(before: Store, o: Outcome): Store {
    if o.Answer? && o.result.repo.SomeRepo? && o.result.repo.repo.state == OK
    then before[o.result.repo.repo.key := o.result.repo.repo] else before
  }

  /** What the caller is told of a call. */
  predicate Tells(result: IndexResult, o: Outcome) {
    match o
    case TimedOut => result == IndexResult(NoRepo, "timeout")
    case NilResult => result == IndexResult(NoRepo, "no_repo_found")
    case Answer(answer) => result == answer
  }

  /** One step, and then a run. */
  lemma Then(t: Topology, net: Net, a: Action, net': Net, run: seq<Action>)
    requires Enabled(t, net, a) && Step(t, net, a) == net' && Schedule(t, net', run)
    ensures Schedule(t, net, [a] + run) && Exec(t, net, [a] + run) == Exec(t, net', run)
  {
    assert ([a] + run)[1..] == run;
  }

  lemma {:induction false} Continues(t: Topology, net: Net, a: seq<Action>, b: seq<Action>)
    requires Schedule(t, net, a) && Schedule(t, Exec(t, net, a), b)
    ensures Schedule(t, net, a + b) && Exec(t, net, a + b) == Exec(t, Exec(t, net, a), b)
    decreases a
  {
    hide Enabled, Step;
    if a == [] {
      assert a + b == b;
    } else {
      assert (a + b)[1..] == a[1..] + b;
      Continues(t, Step(t, net, a[0]), a[1..], b);
    }
  }

  // ----- the steps

  /** The marker has the request's key, root and metadata. */
  lemma MarkerSet(t: Topology, net: Net, i: nat)
    requires Enabled(t, net, SetMarker(i))
    ensures var r := net.requests[i];
            At(Step(t, net, SetMarker(i)), r.node, r.q.key)
            == SomeRepo(Repo(r.q.key, r.q.root, r.q.meta, INDEXING, 0, 0))
  {
  }

  /** What the last step before the cleanup leaves under the key, with or without anyone interfering: the repository
      answered with, if that is OK; nothing, if there is none, or a bad one while deletion is on, or no call to
      make; else what was there. */
  lemma FinishLeaves(t: Topology, net: Net, i: nat)
    requires Enabled(t, net, Finish(i)) && AnswerOk(net.requests[i])
    ensures var r := net.requests[i]; var m := At(Step(t, net, Finish(i)), r.node, r.q.key);
            match r.phase
            case Answered(Answer(IndexResult(SomeRepo(repo), _))) =>
              if repo.state == OK then m == SomeRepo(repo)
              else if t.deleteOnError(r.node) then m == NoRepo else m == At(net, r.node, r.q.key)
            case Answered(Answer(IndexResult(NoRepo, _))) => m == NoRepo
            case Unserviceable => m == NoRepo
            case _ => m == At(net, r.node, r.q.key)
  {
  }

  lemma Marks(t: Topology, net: Net, i: nat)
    requires In(net, i) && net.requests[i].phase == Looking && net.requests[i].q.valid
    requires var r := net.requests[i]; r.q.key !in net.stores[r.node]
    ensures var r := net.requests[i];
            var phase := if t.isLocal(r.node, MetaHost(r.q.meta)) || r.q.recurse then Waiting(NotRelayed)
                         else Unserviceable;
            && Schedule(t, net, [Lookup(i), SetMarker(i)])
            && Exec(t, net, [Lookup(i), SetMarker(i)])
               == Put(net, i, r.(phase := phase), Mark(net.stores[r.node], r.q))
  {
    var r := net.requests[i];
    var absent := net.(requests := net.requests[i := r.(phase := Absent)]);
    Then(t, absent, SetMarker(i), Step(t, absent, SetMarker(i)), []);
    Then(t, net, Lookup(i), absent, [SetMarker(i)]);
    assert [SetMarker(i)] + [] == [SetMarker(i)] && [Lookup(i)] + [SetMarker(i)] == [Lookup(i), SetMarker(i)];
  }

  lemma Finishes(t: Topology, net: Net, i: nat, o: Outcome, before: Store)
    requires In(net, i) && net.requests[i].phase == Answered(o)
    requires var r := net.requests[i]; r.q.key !in before && net.stores[r.node] == Mark(before, r.q)
    ensures var r := net.requests[i]; var run := [Finish(i), Clear(i)];
            && Schedule(t, net, run) && Tells(ResultOf(o), o)
            && Exec(t, net, run) == Put(net, i, r.(phase := Done, result := ResultOf(o)), StoreThen(before, o))
  {
    hide Conclude, Cleanup, Mark;
    var r := net.requests[i];
    var store := Conclude(Mark(before, r.q), r.q.key, o, t.deleteOnError(r.node));
    var finished := Put(net, i, r.(phase := Clearing, result := ResultOf(o)), store);
    MarkerGone(before, r.q, o, t.deleteOnError(r.node));
    assert Step(t, net, Finish(i)) == finished;
    assert finished.stores[r.node := Cleanup(store, r.q.key)] == net.stores[r.node := StoreThen(before, o)];
    Then(t, finished, Clear(i), Step(t, finished, Clear(i)), []);
    Then(t, net, Finish(i), finished, [Clear(i)]);
    assert [Clear(i)] + [] == [Clear(i)] && [Finish(i)] + [Clear(i)] == [Finish(i), Clear(i)];
  }

  lemma Replies(t: Topology, net: Net, i: nat, o: Outcome, before: Store) returns (run: seq<Action>)
    requires In(net, i) && net.requests[i].phase.Waiting? && Possible(t, net, i, o)
    requires var r := net.requests[i]; r.q.key !in before && net.stores[r.node] == Mark(before, r.q)
    ensures var r := net.requests[i];
            && Schedule(t, net, run) && Tells(ResultOf(o), o)
            && Exec(t, net, run) == Put(net, i, r.(phase := Done, result := ResultOf(o)), StoreThen(before, o))
  {
    hide Exec, Schedule, Possible, Mark, StoreThen, ResultOf, Tells;
    var r := net.requests[i];
    var answered := Step(t, net, Reply(i, o));
    Finishes(t, answered, i, o, before);
    Then(t, net, Reply(i, o), answered, [Finish(i), Clear(i)]);
    run := [Reply(i, o)] + [Finish(i), Clear(i)];
    assert answered.stores == net.stores && answered.requests == net.requests[i := r.(phase := Answered(o))];
  }

  // ----- at one node

  /** The request for this node alone: its call comes to anything, an answer being for the key it asks for. */
  predicate CanCome(t: Topology, node: Node, q: IndexQuery, o: Outcome) {
    o.Answer? && o.result.repo.SomeRepo? ==> t.isLocal(node, MetaHost(q.meta)) && o.result.repo.repo.key == q.key
  }

  /** A request that looks up its key, served without interference: its steps come to what `DoIndex` promises. (What
      is returned as the error of a request without a call to make is here the error of its result.) */
  lemma ServedAlone(t: Topology, net: Net, i: nat, o: Outcome) returns (run: seq<Action>, result: IndexResult)
    requires In(net, i) && net.requests[i].phase == Looking
    requires CanCome(t, net.requests[i].node, net.requests[i].q, o)
    ensures var r := net.requests[i]; var store := net.stores[r.node];
            var serviceable := t.isLocal(r.node, MetaHost(r.q.meta)) || r.q.recurse;
            && Schedule(t, net, run)
            && Exec(t, net, run) == Put(net, i, r.(phase := Done, result := result),
                                        if r.q.key !in store && r.q.valid && serviceable then StoreThen(store, o)
                                        else store)
            && (r.q.key in store ==> result == IndexResult(SomeRepo(store[r.q.key]), ""))
            && (r.q.key !in store && r.q.valid && serviceable ==> Tells(result, o))
            && (r.q.key !in store && !r.q.valid ==> result == IndexResult(NoRepo, "value_error"))
            && (r.q.key !in store && r.q.valid && !serviceable ==>
                  result == IndexResult(NoRepo, "rpc_client_unavailable"))
  {
    hide Exec, Schedule, Mark, StoreThen, ResultOf, Tells;
    var r := net.requests[i];
    var store := net.stores[r.node];
    assert net.stores == net.stores[r.node := store];
    if r.q.key in store || !r.q.valid {
      run := [Lookup(i)];
      var after := Step(t, net, Lookup(i));
      result := after.requests[i].result;
      NoStep(t, after);
      Then(t, net, Lookup(i), after, []);
      assert [Lookup(i)] + [] == [Lookup(i)];
    } else {
      Marks(t, net, i);
      var marked := Exec(t, net, [Lookup(i), SetMarker(i)]);
      var rest;
      if t.isLocal(r.node, MetaHost(r.q.meta)) || r.q.recurse {
        rest := Replies(t, marked, i, o, store);
        result := ResultOf(o);
      } else {
        rest := GivesUp(t, marked, i, store);
        result := IndexResult(NoRepo, "rpc_client_unavailable");
      }
      Continues(t, net, [Lookup(i), SetMarker(i)], rest);
      run := [Lookup(i), SetMarker(i)] + rest;
    }
  }

  lemma NoStep(t: Topology, net: Net)
    ensures Schedule(t, net, []) && Exec(t, net, []) == net
  {
  }

  lemma GivesUp(t: Topology, net: Net, i: nat, before: Store) returns (run: seq<Action>)
    requires In(net, i) && net.requests[i].phase == Unserviceable
    requires var r := net.requests[i]; r.q.key !in before && net.stores[r.node] == Mark(before, r.q)
    ensures var r := net.requests[i];
            && Schedule(t, net, run)
            && Exec(t, net, run)
               == Put(net, i, r.(phase := Done, result := IndexResult(NoRepo, "rpc_client_unavailable")), before)
  {
    var r := net.requests[i];
    var clearing := r.(phase := Clearing, result := IndexResult(NoRepo, "rpc_client_unavailable"));
    assert Mark(before, r.q) - {r.q.key} == before;
    var finished := Put(net, i, clearing, before);
    Then(t, finished, Clear(i), Step(t, finished, Clear(i)), []);
    Then(t, net, Finish(i), finished, [Clear(i)]);
    run := [Finish(i)] + [Clear(i)];
  }

  /** A client's request makes one more request, with its query, at its node. */
  lemma Arrives(t: Topology, net: Net, node: Node, q: IndexQuery)
    requires node in net.stores
    ensures Enabled(t, net, Arrive(node, q))
    ensures Step(t, net, Arrive(node, q))
         == Net(net.stores, net.requests + [Request(node, q, Client, Looking, IndexResult(NoRepo, ""))])
  {
  }

  // ----- over a front end and a back end

  /** A request at a front end that is to be served by a back end, neither of which has the key. */
  predicate ToRelay(t: Topology, net: Net, i: nat) {
    In(net, i) &&
    var r := net.requests[i]; var back := t.route(MetaHost(r.q.meta));
    && r.phase == Looking && r.q.valid && r.q.recurse && !t.isLocal(r.node, MetaHost(r.q.meta))
    && back in net.stores && back != r.node && t.isLocal(back, MetaHost(r.q.meta))
    && r.q.key !in net.stores[r.node] && r.q.key !in net.stores[back]
  }

  /** The front end has marked the key and made the relay. */
  function RelayedNet(t: Topology, net: Net, i: nat): Net
    requires ToRelay(t, net, i)
  {
    var r := net.requests[i];
    var q := IndexQuery(r.q.key, r.q.root, r.q.meta, true, false);
    Net(net.stores[r.node := Mark(net.stores[r.node], r.q)],
        net.requests[i := r.(phase := Waiting(RelayedAs(|net.requests|)))]
        + [Request(t.route(MetaHost(r.q.meta)), q, RelayOf(i), Looking, IndexResult(NoRepo, ""))])
  }

  lemma Relays(t: Topology, net: Net, i: nat) returns (run: seq<Action>)
    requires ToRelay(t, net, i)
    ensures Schedule(t, net, run) && Exec(t, net, run) == RelayedNet(t, net, i)
  {
    hide Exec, Schedule, Mark;
    Marks(t, net, i);
    var marked := Exec(t, net, [Lookup(i), SetMarker(i)]);
    NoStep(t, RelayedNet(t, net, i));
    assert marked.requests[i].phase == Waiting(NotRelayed);
    assert Step(t, marked, Relay(i)) == RelayedNet(t, net, i);
    Then(t, marked, Relay(i), RelayedNet(t, net, i), []);
    Continues(t, net, [Lookup(i), SetMarker(i)], [Relay(i)] + []);
    run := [Lookup(i), SetMarker(i)] + ([Relay(i)] + []);
  }

  /** Back-fill happens: without interference, what the back end indexes ends up under the key at both ends, and is
      what the caller is told. */
  lemma RelayServed(t: Topology, net: Net, i: nat, repo: Repo) returns (run: seq<Action>)
    requires ToRelay(t, net, i) && repo.key == net.requests[i].q.key && repo.state == OK
    ensures Schedule(t, net, run)
    ensures var net' := Exec(t, net, run); var r := net.requests[i]; var back := t.route(MetaHost(r.q.meta));
            && net'.stores == net.stores[back := net.stores[back][r.q.key := repo]]
                                        [r.node := net.stores[r.node][r.q.key := repo]]
            && |net'.requests| == |net.requests| + 1
            && net'.requests[i] == r.(phase := Done, result := IndexResult(SomeRepo(repo), ""))
            && net'.requests[|net.requests|].caller == RelayOf(i) && net'.requests[|net.requests|].node == back
  {
    hide Exec, Schedule, Mark, ResultOf, Tells, StoreThen;
    var r, c := net.requests[i], |net.requests|;
    var o := Answer(IndexResult(SomeRepo(repo), ""));
    var made := Relays(t, net, i);
    var relayed := RelayedNet(t, net, i);
    var served, result := ServedAlone(t, relayed, c, o);
    var answered := Exec(t, relayed, served);
    ChildServed(t, net, i, repo, answered, result);
    var replied := Replies(t, answered, i, o, net.stores[r.node]);
    Continues(t, relayed, served, replied);
    Continues(t, net, made, served + replied);
    run := made + (served + replied);
    RelayEnds(net, i, answered, repo, o);
  }

  lemma ChildServed(t: Topology, net: Net, i: nat, repo: Repo, answered: Net, result: IndexResult)
    requires ToRelay(t, net, i) && repo.key == net.requests[i].q.key && repo.state == OK
    requires var c := |net.requests|; var relayed := RelayedNet(t, net, i);
             var o := Answer(IndexResult(SomeRepo(repo), ""));
             && Tells(result, o)
             && answered == Put(relayed, c, relayed.requests[c].(phase := Done, result := result),
                                StoreThen(relayed.stores[relayed.requests[c].node], o))
    ensures var r := net.requests[i]; var back := t.route(MetaHost(r.q.meta));
            var o := Answer(IndexResult(SomeRepo(repo), ""));
            && In(answered, i) && answered.requests[i] == r.(phase := Waiting(RelayedAs(|net.requests|)))
            && answered.stores == net.stores[r.node := Mark(net.stores[r.node], r.q)]
                                            [back := net.stores[back][r.q.key := repo]]
            && |answered.requests| == |net.requests| + 1 && Possible(t, answered, i, o)
            && answered.requests[|net.requests|].caller == RelayOf(i)
            && answered.requests[|net.requests|].node == back
  {
    hide Mark;
  }

  lemma RelayEnds(net: Net, i: nat, answered: Net, repo: Repo, o: Outcome)
    requires i < |net.requests| && o == Answer(IndexResult(SomeRepo(repo), "")) && repo.state == OK
    requires repo.key == net.requests[i].q.key && net.requests[i].node in net.stores
    ensures ResultOf(o) == IndexResult(SomeRepo(repo), "")
    ensures var r := net.requests[i];
            StoreThen(net.stores[r.node], o) == net.stores[r.node][r.q.key := repo]
  {
  }
}
