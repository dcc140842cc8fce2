/** Runs that disturb a key, and what they do to it: two requests in flight together, a search, an unreadable shard. */
module IndexRace {
  import opened Repos
  import opened IndexServer
  import opened IndexNet
  import opened IndexInvariant
  import opened IndexKeys
  import opened IndexTheorems
  import opened IndexAlone
  import DoSearch

  const NoResult := IndexResult(NoRepo, "")

  /** One node with two requests for the same key. */
  function Pair(node: Node, q: IndexQuery, store: Store, p: Phase, result: IndexResult, p': Phase): Net {
    Net(map[node := store], [Request(node, q, Client, p, result), Request(node, q, Client, p', NoResult)])
  }

  /** The requests a node can serve itself. */
  predicate Served(t: Topology, node: Node, q: IndexQuery) {
    q.valid && t.isLocal(node, MetaHost(q.meta))
  }

  lemma Arrivals(t: Topology, node: Node, q: IndexQuery, run: seq<Action>)
    requires Schedule(t, Pair(node, q, map[], Looking, NoResult, Looking), run)
    ensures var net, run' := Net(map[node := map[]], []), [Arrive(node, q)] + ([Arrive(node, q)] + run);
            Schedule(t, net, run')
            && Exec(t, net, run') == Exec(t, Pair(node, q, map[], Looking, NoResult, Looking), run)
  {
    var one := Net(map[node := map[]], [Request(node, q, Client, Looking, NoResult)]);
    Then(t, one, Arrive(node, q), Pair(node, q, map[], Looking, NoResult, Looking), run);
    Then(t, Net(map[node := map[]], []), Arrive(node, q), one, [Arrive(node, q)] + run);
  }

  /** Both requests look before either sets its marker. */
  lemma Lookups(t: Topology, node: Node, q: IndexQuery, run: seq<Action>)
    requires Served(t, node, q) && Schedule(t, Pair(node, q, map[], Absent, NoResult, Absent), run)
    ensures var net, run' := Pair(node, q, map[], Looking, NoResult, Looking), [Lookup(0)] + ([Lookup(1)] + run);
            Schedule(t, net, run') && Exec(t, net, run') == Exec(t, Pair(node, q, map[], Absent, NoResult, Absent), run)
  {
    var a := Pair(node, q, map[], Absent, NoResult, Looking);
    Then(t, a, Lookup(1), Pair(node, q, map[], Absent, NoResult, Absent), run);
    Then(t, Pair(node, q, map[], Looking, NoResult, Looking), Lookup(0), a, [Lookup(1)] + run);
  }

  /** The first request is served. */
  lemma Serves(t: Topology, node: Node, q: IndexQuery, r: Repo) returns (run: seq<Action>)
    requires Served(t, node, q) && r.key == q.key && r.state == OK
    ensures var net := Pair(node, q, map[], Absent, NoResult, Absent);
            Schedule(t, net, run)
            && Exec(t, net, run) == Pair(node, q, map[q.key := r], Clearing, IndexResult(SomeRepo(r), ""), Absent)
  {
    var o := Answer(IndexResult(SomeRepo(r), ""));
    var marked := map[q.key := Marker(q)];
    var b := Pair(node, q, marked, Waiting(NotRelayed), NoResult, Absent);
    var c := Pair(node, q, marked, Answered(o), NoResult, Absent);
    var d := Pair(node, q, map[q.key := r], Clearing, o.result, Absent);
    FinishStep(t, node, q, r);
    Then(t, c, Finish(0), d, []);
    Then(t, b, Reply(0, o), c, [Finish(0)] + []);
    Then(t, Pair(node, q, map[], Absent, NoResult, Absent), SetMarker(0), b, [Reply(0, o)] + ([Finish(0)] + []));
    run := [SetMarker(0)] + ([Reply(0, o)] + ([Finish(0)] + []));
  }

  lemma FinishStep(t: Topology, node: Node, q: IndexQuery, r: Repo)
    requires r.key == q.key && r.state == OK
    ensures var o := Answer(IndexResult(SomeRepo(r), ""));
            var c := Pair(node, q, map[q.key := Marker(q)], Answered(o), NoResult, Absent);
            Enabled(t, c, Finish(0))
            && Step(t, c, Finish(0)) == Pair(node, q, map[q.key := r], Clearing, o.result, Absent)
  {
    var marked: Store := map[q.key := Marker(q)];
    assert marked[q.key := r] == map[q.key := r];
    assert map[node := marked][node := map[q.key := r]] == map[node := map[q.key := r]];
  }

  /** A second lookup loses an OK repository: in a run of two requests for one key, the marker of the second
      overwrites the repository the first has just stored. */
  lemma SameKeyLosesOk(t: Topology, node: Node, q: IndexQuery, r: Repo) returns (net: Net, run: seq<Action>)
    requires Served(t, node, q) && r.key == q.key && r.state == OK
    ensures Initial(net) && Schedule(t, net, run) && Enabled(t, Exec(t, net, run), SetMarker(1))
    ensures At(Exec(t, net, run), node, q.key) == SomeRepo(r)
    ensures At(Step(t, Exec(t, net, run), SetMarker(1)), node, q.key) == SomeRepo(Marker(q))
  {
    hide Schedule, Exec;
    net := Net(map[node := map[]], []);
    var tail := Serves(t, node, q, r);
    Lookups(t, node, q, tail);
    Arrivals(t, node, q, [Lookup(0)] + ([Lookup(1)] + tail));
    run := [Arrive(node, q)] + ([Arrive(node, q)] + ([Lookup(0)] + ([Lookup(1)] + tail)));
  }

  /** A search loses an OK repository, without any index request about: one that is told of another repository under
      the key replaces it; one that is told that it failed removes it, where deletion is on. */
  lemma SearchLosesOk(t: Topology, node: Node, r: Repo, told: Repo) returns (net: Net)
    requires r.state == OK && told.key == r.key && told != r
    requires told.state == OK || t.deleteOnError(node)
    ensures Initial(net) && At(net, node, r.key) == SomeRepo(r)
    ensures var a := Report(node, map[r.key := told]);
            && Enabled(t, net, a)
            && At(Step(t, net, a), node, r.key) == if told.state == OK then SomeRepo(told) else NoRepo
  {
    net := Net(map[node := map[r.key := r]], []);
  }

  /** One node with one request. */
  function Single(node: Node, q: IndexQuery, store: Store, p: Phase, result: IndexResult): Net {
    Net(map[node := store], [Request(node, q, Client, p, result)])
  }

  lemma Marks(t: Topology, node: Node, q: IndexQuery, run: seq<Action>)
    requires q.valid && (t.isLocal(node, MetaHost(q.meta)) || q.recurse)
    requires Schedule(t, Single(node, q, map[q.key := Marker(q)], Waiting(NotRelayed), NoResult), run)
    ensures var net, run' := Net(map[node := map[]], []), [Arrive(node, q)] + ([Lookup(0)] + ([SetMarker(0)] + run));
            Schedule(t, net, run')
            && Exec(t, net, run')
            == Exec(t, Single(node, q, map[q.key := Marker(q)], Waiting(NotRelayed), NoResult), run)
  {
    var one, two := Single(node, q, map[], Looking, NoResult), Single(node, q, map[], Absent, NoResult);
    Then(t, two, SetMarker(0), Single(node, q, map[q.key := Marker(q)], Waiting(NotRelayed), NoResult), run);
    Then(t, one, Lookup(0), two, [SetMarker(0)] + run);
    Then(t, Net(map[node := map[]], []), Arrive(node, q), one, [Lookup(0)] + ([SetMarker(0)] + run));
  }

  lemma FaultStep(t: Topology, node: Node, q: IndexQuery, r: Repo)
    requires r.key == q.key && !t.deleteOnError(node)
    ensures var b := Single(node, q, map[q.key := Marker(q)], Waiting(NotRelayed), NoResult);
            Enabled(t, b, Fault(node, r))
            && Step(t, b, Fault(node, r))
            == Single(node, q, map[q.key := r.(state := ERROR)], Waiting(NotRelayed), NoResult)
  {
    var marked: Store := map[q.key := Marker(q)];
    var failed := r.(state := ERROR);
    assert marked[q.key := failed] == map[q.key := failed];
    assert map[node := marked][node := map[q.key := failed]] == map[node := map[q.key := failed]];
  }

  lemma TimesOut(t: Topology, node: Node, q: IndexQuery, store: Store)
    ensures var b := Single(node, q, store, Waiting(NotRelayed), NoResult);
            var run := [Reply(0, TimedOut)] + ([Finish(0)] + []);
            Schedule(t, b, run)
            && Exec(t, b, run) == Single(node, q, store, Clearing, ResultOf(TimedOut))
  {
    var b := Single(node, q, store, Waiting(NotRelayed), NoResult);
    var c := Single(node, q, store, Answered(TimedOut), NoResult);
    var d := Single(node, q, store, Clearing, ResultOf(TimedOut));
    assert map[node := store][node := store] == map[node := store];
    assert Step(t, c, Finish(0)) == d;
    Then(t, c, Finish(0), d, []);
    Then(t, b, Reply(0, TimedOut), c, [Finish(0)] + []);
  }

  /** A search that cannot read a shard of the key, while the key is being indexed and deletion is off, leaves it
      neither absent nor OK on return. */
  lemma FailedOnReturn(t: Topology, node: Node, q: IndexQuery, r: Repo) returns (net: Net, run: seq<Action>)
    requires q.valid && (t.isLocal(node, MetaHost(q.meta)) || q.recurse)
    requires r.key == q.key && !t.deleteOnError(node)
    ensures Initial(net) && Schedule(t, net, run) && Enabled(t, Exec(t, net, run), Clear(0))
    ensures var i := Exec(t, net, run).requests[0]; i.node == node && i.q == q
    ensures HasState(At(Step(t, Exec(t, net, run), Clear(0)), node, q.key), ERROR)
  {
    hide Schedule, Exec;
    net := Net(map[node := map[]], []);
    var failed := map[q.key := r.(state := ERROR)];
    var tail := [Reply(0, TimedOut)] + ([Finish(0)] + []);
    TimesOut(t, node, q, failed);
    FaultStep(t, node, q, r);
    var b := Single(node, q, map[q.key := Marker(q)], Waiting(NotRelayed), NoResult);
    Then(t, b, Fault(node, r), Single(node, q, failed, Waiting(NotRelayed), NoResult), tail);
    Marks(t, node, q, [Fault(node, r)] + tail);
    run := [Arrive(node, q)] + ([Lookup(0)] + ([SetMarker(0)] + ([Fault(node, r)] + tail)));
  }

  /** After this run and the cleanup of this request, its key is absent or OK at its node. */
  ghost predicate CleanReturn(t: Topology, net: Net, run: seq<Action>, i: nat, node: Node) {
    && Initial(net) && Schedule(t, net, run) && Enabled(t, Exec(t, net, run), Clear(i))
    && Exec(t, net, run).requests[i].node == node
    ==>
      var m := At(Step(t, Exec(t, net, run), Clear(i)), node, Exec(t, net, run).requests[i].q.key);
      m == NoRepo || HasState(m, OK)
  }

  /** In every run every request leaves its key absent or OK at a node on return, exactly if the node is configured
      to delete repositories on errors. */
  lemma CleanReturnIff(t: Topology, node: Node)
    ensures (forall net, run, i: nat :: CleanReturn(t, net, run, i, node)) <==> t.deleteOnError(node)
  {
    hide Exec, Schedule, Step, At, Initial;
    if t.deleteOnError(node) {
      forall net, run, i: nat
        ensures CleanReturn(t, net, run, i, node)
      {
        if Initial(net) && Schedule(t, net, run) && Enabled(t, Exec(t, net, run), Clear(i))
           && Exec(t, net, run).requests[i].node == node {
          ClearedOrOk(t, net, run, i);
          StepRequests(t, Exec(t, net, run), Clear(i), i);
        }
      }
    } else {
      var q := IndexQuery("k", "/", map[], true, true);
      var r := Repo("k", "/", map[], OK, 1, 0);
      var net, run := FailedOnReturn(t, node, q, r);
      assert !CleanReturn(t, net, run, 0, node);
    }
  }
}
