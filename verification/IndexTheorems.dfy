/** Safety of indexing over whole runs: markers, finished repositories, and the single hop. */
module IndexTheorems {
  import opened Repos
  import opened IndexServer
  import opened IndexNet
  import opened IndexInvariant
  import opened IndexKeys

  // ----- markers

  /** In every run, when no request for a key has its marker set at a node, the node holds no marker for it. */
  lemma NoMarkerLeft(t: Topology, net: Net, run: seq<Action>, node: Node, key: string)
    requires Initial(net) && Schedule(t, net, run)
    requires var rs := Exec(t, net, run).requests;
             forall i :: 0 <= i < |rs| && Same(rs[i], node, key) ==> !Marking(rs[i])
    ensures !HasState(At(Exec(t, net, run), node, key), INDEXING)
  {
    hide Exec, Schedule, At, Keyed, RelayInv;
    InitialInv(t, net);
    RunInv(t, net, run);
    assert !MarkedFor(Exec(t, net, run), node, key);
  }

  // ----- on return

  /** Stored as failed: with deletion off, by a search that cannot read a shard. Nothing else stores that. */
  predicate StoresFailed(t: Topology, a: Action, node: Node, key: string) {
    a.Fault? && a.node == node && a.repo.key == key && !t.deleteOnError(node)
  }

  ghost predicate AbsentMarkedOrOk(m: MaybeRepo) {
    m == NoRepo || HasState(m, INDEXING) || HasState(m, OK)
  }

  /** A key with a request in flight was found absent by it, and has not been stored as failed since. */
  ghost predicate Unfailed(net: Net, node: Node, key: string) {
    InFlight(net, node, key) ==> AbsentMarkedOrOk(At(net, node, key))
  }

  lemma OutsideUnfailed(t: Topology, net: Net, a: Action, node: Node, key: string)
    requires Enabled(t, net, a) && (a.Report? || a.Fault? || a.Remove?) && !StoresFailed(t, a, node, key)
    requires AbsentMarkedOrOk(At(net, node, key))
    ensures AbsentMarkedOrOk(At(Step(t, net, a), node, key))
  {
  }

  lemma WriteUnfailed(t: Topology, net: Net, a: Action, node: Node, key: string)
    requires Enabled(t, net, a) && Writes(a) && AnswerOk(net.requests[Actor(a)])
    requires AbsentMarkedOrOk(At(net, node, key))
    ensures AbsentMarkedOrOk(At(Step(t, net, a), node, key))
  {
  }

  lemma StepUnfailed(t: Topology, net: Net, a: Action, node: Node, key: string)
    requires Keyed(net) && Unfailed(net, node, key) && Enabled(t, net, a) && !StoresFailed(t, a, node, key)
    ensures Unfailed(Step(t, net, a), node, key)
  {
    hide Step, Enabled, At, AnswerOk, KeyedBy, Owning, StoresFailed;
    var net' := Step(t, net, a);
    if Acts(a) {
      ActorBound(t, net, a);
      assert AnswerOk(net.requests[Actor(a)]);
    }
    if InFlight(net', node, key) {
      var j :| 0 <= j < |net'.requests| && Owning(net'.requests[j]) && Same(net'.requests[j], node, key);
      StepOwning(t, net, a, j);
      StepRequests(t, net, a, j);
      assert Owning(net.requests[j]) ==> InFlight(net, node, key);
      if Writes(a) {
        WriteUnfailed(t, net, a, node, key);
      } else if a.Report? || a.Fault? || a.Remove? {
        OutsideUnfailed(t, net, a, node, key);
      } else {
        QuietFrame(t, net, a, node, key);
      }
    }
  }

  lemma {:induction false} RunUnfailed(t: Topology, net: Net, run: seq<Action>, node: Node, key: string)
    requires Inv(t, net) && Unfailed(net, node, key) && Schedule(t, net, run)
    requires forall a :: a in run ==> !StoresFailed(t, a, node, key)
    ensures Unfailed(Exec(t, net, run), node, key)
    decreases run
  {
    hide Step, Enabled, Inv, Unfailed, StoresFailed;
    if run != [] {
      KeyedOf(t, net);
      StepUnfailed(t, net, run[0], node, key);
      StepInv(t, net, run[0]);
      RunUnfailed(t, Step(t, net, run[0]), run[1..], node, key);
    }
  }

  /** When a request has cleared up, its key is no marker; it is absent or OK exactly when it was not stored as
      failed (or with no state) just before. */
  lemma ClearedIff(t: Topology, net: Net, i: nat)
    requires Enabled(t, net, Clear(i))
    ensures var r := net.requests[i]; var m := At(Step(t, net, Clear(i)), r.node, r.q.key);
            && !HasState(m, INDEXING)
            && (m == NoRepo || HasState(m, OK) <==> AbsentMarkedOrOk(At(net, r.node, r.q.key)))
  {
  }

  /** In every run, disturbed or not, in which no search stores the key as failed, a request that found its key
      absent leaves it absent or OK. */
  lemma ClearedOrOk(t: Topology, net: Net, run: seq<Action>, i: nat)
    requires Initial(net) && Schedule(t, net, run) && Enabled(t, Exec(t, net, run), Clear(i))
    requires var r := Exec(t, net, run).requests[i];
             forall a :: a in run ==> !StoresFailed(t, a, r.node, r.q.key)
    ensures var net' := Step(t, Exec(t, net, run), Clear(i)); var r := net'.requests[i];
            var m := At(net', r.node, r.q.key); r.phase == Done && (m == NoRepo || HasState(m, OK))
  {
    hide Exec, Schedule, Inv, StoresFailed, At;
    var before := Exec(t, net, run);
    var r := before.requests[i];
    InitialInv(t, net);
    assert Unfailed(net, r.node, r.q.key);
    RunUnfailed(t, net, run, r.node, r.q.key);
    assert Owning(r) && Same(r, r.node, r.q.key);
    ClearedIff(t, before, i);
    StepRequests(t, before, Clear(i), i);
  }

  // ----- a finished repository

  /** A request in flight that can still replace or remove the repository under its key: it found the key absent
      before the repository was there, and what it is about to write is something else. */
  predicate Threatens(t: Topology, r: Request, repo: Repo) {
    match r.phase
    case Absent => true
    case Waiting(_) => true
    case Unserviceable => true
    case Answered(Answer(result)) =>
      (match result.repo
       case NoRepo => true
       case SomeRepo(other) => if other.state == OK then other != repo else t.deleteOnError(r.node))
    case _ => false
  }

  ghost predicate Unthreatened(t: Topology, net: Net, node: Node, key: string, repo: Repo) {
    forall i :: 0 <= i < |net.requests| && Same(net.requests[i], node, key) ==> !Threatens(t, net.requests[i], repo)
  }

  ghost predicate Harmlessly(t: Topology, run: seq<Action>, node: Node, key: string, repo: Repo) {
    forall i :: 0 <= i < |run| ==> Harmless(t, run[i], node, key, repo)
  }

  /** A request that is no threat stays none, and writes nothing. */
  lemma ActorHarmless(t: Topology, net: Net, a: Action, node: Node, key: string, repo: Repo)
    requires Enabled(t, net, a) && Acts(a) && AnswerOk(net.requests[Actor(a)])
    requires At(net, node, key) == SomeRepo(repo) && repo.state == OK && Same(net.requests[Actor(a)], node, key)
    requires !Threatens(t, net.requests[Actor(a)], repo)
    ensures At(Step(t, net, a), node, key) == SomeRepo(repo)
    ensures !Threatens(t, Step(t, net, a).requests[Actor(a)], repo)
  {
    hide Possible;
  }

  lemma LookingHarmless(t: Topology, r: Request, repo: Repo)
    requires r.phase == Looking
    ensures !Threatens(t, r, repo)
  {
  }

  lemma StepKeepsOk(t: Topology, net: Net, a: Action, node: Node, key: string, repo: Repo)
    requires Keyed(net) && Enabled(t, net, a) && Harmless(t, a, node, key, repo)
    requires At(net, node, key) == SomeRepo(repo) && repo.state == OK && Unthreatened(t, net, node, key, repo)
    ensures At(Step(t, net, a), node, key) == SomeRepo(repo)
  {
    hide Step, Enabled, At, AnswerOk, KeyedBy, Threatens, Harmless;
    if Acts(a) {
      ActorBound(t, net, a);
      assert AnswerOk(net.requests[Actor(a)]);
      if Same(net.requests[Actor(a)], node, key) {
        ActorHarmless(t, net, a, node, key, repo);
      } else if Writes(a) {
        WriteFrame(t, net, a, node, key);
      } else {
        QuietFrame(t, net, a, node, key);
      }
    } else if a.Arrive? {
      QuietFrame(t, net, a, node, key);
    } else {
      OutsideKeepsIff(t, net, a, node, key, repo);
    }
  }

  lemma StepUnthreatened(t: Topology, net: Net, a: Action, node: Node, key: string, repo: Repo)
    requires Keyed(net) && Enabled(t, net, a)
    requires At(net, node, key) == SomeRepo(repo) && repo.state == OK && Unthreatened(t, net, node, key, repo)
    ensures Unthreatened(t, Step(t, net, a), node, key, repo)
  {
    hide Step, Enabled, At, AnswerOk, KeyedBy, Threatens;
    var net' := Step(t, net, a);
    StepSize(t, net, a);
    forall j | 0 <= j < |net'.requests| && Same(net'.requests[j], node, key)
      ensures !Threatens(t, net'.requests[j], repo)
    {
      if j == |net.requests| {
        NewRequest(t, net, a);
        LookingHarmless(t, net'.requests[j], repo);
      } else {
        StepRequests(t, net, a, j);
        if Acts(a) && j == Actor(a) {
          assert AnswerOk(net.requests[j]);
          ActorHarmless(t, net, a, node, key, repo);
        }
      }
    }
  }

  /** Without a threat in flight, an OK repository stays as it is in every run with harmless outside writes only:
      requests that come later find it. */
  lemma {:induction false} UnthreatenedPersists(t: Topology, net: Net, run: seq<Action>, node: Node, key: string,
                                                repo: Repo)
    requires Inv(t, net) && Schedule(t, net, run) && Harmlessly(t, run, node, key, repo)
    requires At(net, node, key) == SomeRepo(repo) && repo.state == OK && Unthreatened(t, net, node, key, repo)
    ensures At(Exec(t, net, run), node, key) == SomeRepo(repo)
    decreases run
  {
    hide Step, Enabled, Inv, At, Unthreatened, Harmless;
    if run != [] {
      KeyedOf(t, net);
      assert Harmless(t, run[0], node, key, repo);
      StepKeepsOk(t, net, run[0], node, key, repo);
      StepUnthreatened(t, net, run[0], node, key, repo);
      StepInv(t, net, run[0]);
      assert forall i :: 0 <= i < |run[1..]| ==> run[1..][i] == run[i + 1];
      UnthreatenedPersists(t, Step(t, net, run[0]), run[1..], node, key, repo);
    }
  }

  /** What a waiting request may come to, whoever it waits for. */
  const Nothing := Answer(IndexResult(NoRepo, ""))

  lemma ThreatFinishes(t: Topology, net: Net, i: nat, repo: Repo)
    requires Keyed(net) && i < |net.requests| && Threatens(t, net.requests[i], repo)
    requires net.requests[i].phase.Unserviceable? || net.requests[i].phase.Answered?
    ensures Enabled(t, net, Finish(i))
    ensures var r := net.requests[i]; At(Step(t, net, Finish(i)), r.node, r.q.key) != SomeRepo(repo)
  {
    assert AnswerOk(net.requests[i]);
  }

  lemma ThreatReplies(t: Topology, net: Net, i: nat)
    requires i < |net.requests| && net.requests[i].node in net.stores && net.requests[i].phase.Waiting?
    ensures Enabled(t, net, Reply(i, Nothing))
    ensures Step(t, net, Reply(i, Nothing)).requests[i] == net.requests[i].(phase := Answered(Nothing))
  {
  }

  lemma ThreatMarks(t: Topology, net: Net, i: nat, repo: Repo)
    requires i < |net.requests| && net.requests[i].node in net.stores && net.requests[i].phase == Absent
    requires repo.state == OK
    ensures Enabled(t, net, SetMarker(i))
    ensures var r := net.requests[i]; At(Step(t, net, SetMarker(i)), r.node, r.q.key) != SomeRepo(repo)
  {
  }

  lemma OneStep(t: Topology, net: Net, a: Action)
    requires Enabled(t, net, a)
    ensures Schedule(t, net, [a]) && Exec(t, net, [a]) == Step(t, net, a)
  {
    assert [a][1..] == [];
  }

  lemma TwoSteps(t: Topology, net: Net, a: Action, b: Action)
    requires Enabled(t, net, a) && Enabled(t, Step(t, net, a), b)
    ensures Schedule(t, net, [a, b]) && Exec(t, net, [a, b]) == Step(t, Step(t, net, a), b)
  {
    hide Step, Enabled;
    OneStep(t, Step(t, net, a), b);
    assert [a, b][1..] == [b];
  }

  /** A threat can be carried out, by steps of the threatening request alone. */
  lemma ThreatLoses(t: Topology, net: Net, i: nat, repo: Repo) returns (run: seq<Action>)
    requires Inv(t, net) && i < |net.requests| && Threatens(t, net.requests[i], repo) && repo.state == OK
    ensures Schedule(t, net, run) && forall a :: a in run ==> Acts(a)
    ensures var r := net.requests[i]; At(Exec(t, net, run), r.node, r.q.key) != SomeRepo(repo)
  {
    hide Step, Enabled, At, Exec, Schedule, AnswerOk, KeyedBy, RelayInv;
    var r := net.requests[i];
    if r.phase == Absent {
      ThreatMarks(t, net, i, repo);
      run := [SetMarker(i)];
      OneStep(t, net, SetMarker(i));
    } else if r.phase.Waiting? {
      ThreatReplies(t, net, i);
      var net' := Step(t, net, Reply(i, Nothing));
      StepSize(t, net, Reply(i, Nothing));
      StepRequests(t, net, Reply(i, Nothing), i);
      StepInv(t, net, Reply(i, Nothing));
      ThreatFinishes(t, net', i, repo);
      run := [Reply(i, Nothing), Finish(i)];
      TwoSteps(t, net, Reply(i, Nothing), Finish(i));
    } else {
      ThreatFinishes(t, net, i, repo);
      run := [Finish(i)];
      OneStep(t, net, Finish(i));
    }
  }

  /** The repository is there after every run with harmless outside writes only. */
  ghost predicate AlwaysKept(t: Topology, net: Net, node: Node, key: string, repo: Repo) {
    forall run :: Schedule(t, net, run) && Harmlessly(t, run, node, key, repo) ==>
      At(Exec(t, net, run), node, key) == SomeRepo(repo)
  }

  /** "A repo cannot be updated or replaced" holds of an OK repository exactly when no request that found its key
      absent, before it was there, still has something else to write; given that outside writes are harmless, which
      they must be (`OutsideKeepsIff`). */
  lemma OkKeptIff(t: Topology, net: Net, node: Node, key: string, repo: Repo)
    requires Inv(t, net) && At(net, node, key) == SomeRepo(repo) && repo.state == OK
    ensures AlwaysKept(t, net, node, key, repo) <==> Unthreatened(t, net, node, key, repo)
  {
    hide Exec, Schedule, At, Inv, Threatens, Harmless;
    if Unthreatened(t, net, node, key, repo) {
      forall run | Schedule(t, net, run) && Harmlessly(t, run, node, key, repo)
        ensures At(Exec(t, net, run), node, key) == SomeRepo(repo)
      {
        UnthreatenedPersists(t, net, run, node, key, repo);
      }
    } else {
      var i :| 0 <= i < |net.requests| && Same(net.requests[i], node, key) && Threatens(t, net.requests[i], repo);
      var run := ThreatLoses(t, net, i, repo);
      forall j | 0 <= j < |run| ensures Harmless(t, run[j], node, key, repo) {
        assert Acts(run[j]);
        ActsHarmless(t, run[j], node, key, repo);
      }
      assert Harmlessly(t, run, node, key, repo);
    }
  }

  lemma ActsHarmless(t: Topology, a: Action, node: Node, key: string, repo: Repo)
    requires Acts(a)
    ensures Harmless(t, a, node, key, repo)
  {
  }

  lemma CalmUnthreatened(t: Topology, net: Net, node: Node, key: string, repo: Repo)
    requires KeyInv(net, node, key) && At(net, node, key) == SomeRepo(repo) && repo.state == OK
    ensures Unthreatened(t, net, node, key, repo)
  {
    forall i | 0 <= i < |net.requests| && Same(net.requests[i], node, key)
      ensures !Threatens(t, net.requests[i], repo)
    {
      assert StoreOk(net.requests[i], At(net, node, key));
    }
  }

  /** In runs from the start: if nothing disturbs the key until an OK repository is stored under it, there is no
      threat in flight then, so it stays for good; only outside writes could still harm it. */
  lemma OkPersists(t: Topology, net: Net, run: seq<Action>, more: seq<Action>, node: Node, key: string, repo: Repo)
    requires Initial(net) && Schedule(t, net, run) && Calm(t, net, run, node, key)
    requires At(Exec(t, net, run), node, key) == SomeRepo(repo) && repo.state == OK
    requires Schedule(t, Exec(t, net, run), more) && Harmlessly(t, more, node, key, repo)
    ensures At(Exec(t, Exec(t, net, run), more), node, key) == SomeRepo(repo)
  {
    hide Exec, Schedule, Calm, At, Inv, KeyInv, Harmlessly, Unthreatened;
    InitialInv(t, net);
    InitialKey(net, node, key);
    RunInv(t, net, run);
    RunKey(t, net, run, node, key);
    CalmUnthreatened(t, Exec(t, net, run), node, key, repo);
    UnthreatenedPersists(t, Exec(t, net, run), more, node, key, repo);
  }

  // ----- what is answered is stored

  /** The network after the first `p` steps of a run. */
  function After(t: Topology, net: Net, run: seq<Action>, p: nat): Net
    requires p <= |run| && Schedule(t, net, run)
  {
    SplitRun(t, net, run, p);
    Exec(t, net, run[..p])
  }

  lemma {:induction false} SplitRun(t: Topology, net: Net, run: seq<Action>, p: nat)
    requires p <= |run| && Schedule(t, net, run)
    ensures Schedule(t, net, run[..p]) && Schedule(t, Exec(t, net, run[..p]), run[p..])
    ensures Exec(t, Exec(t, net, run[..p]), run[p..]) == Exec(t, net, run)
    decreases run
  {
    hide Step, Enabled;
    if p == 0 {
      assert run[..0] == [] && run[0..] == run;
    } else {
      SplitRun(t, Step(t, net, run[0]), run[1..], p - 1);
      assert run[..p][0] == run[0] && run[..p][1..] == run[1..][..p - 1] && run[p..] == run[1..][p - 1..];
    }
  }

  lemma LastStep(t: Topology, net: Net, run: seq<Action>)
    requires run != [] && Schedule(t, net, run)
    ensures var before := After(t, net, run, |run| - 1); var a := run[|run| - 1];
            Enabled(t, before, a) && Exec(t, net, run) == Step(t, before, a)
  {
    hide Step, Enabled;
    SplitRun(t, net, run, |run| - 1);
    assert run[|run| - 1..] == [run[|run| - 1]];
    OneStepRun(t, After(t, net, run, |run| - 1), run[|run| - 1]);
  }

  lemma OneStepRun(t: Topology, net: Net, a: Action)
    requires Schedule(t, net, [a])
    ensures Enabled(t, net, a) && Exec(t, net, [a]) == Step(t, net, a)
  {
    hide Step, Enabled;
    assert [a][1..] == [];
  }

  lemma AfterPrefix(t: Topology, net: Net, run: seq<Action>, n: nat, p: nat)
    requires p <= n <= |run| && Schedule(t, net, run)
    ensures Schedule(t, net, run[..n]) && After(t, net, run[..n], p) == After(t, net, run, p)
  {
    hide Exec, Schedule;
    SplitRun(t, net, run, n);
    assert run[..n][..p] == run[..p];
  }

  /** Answered, for good: with an OK repository. */
  predicate AnsweredWith(r: Request, repo: Repo) {
    (r.phase == Clearing || r.phase == Done) && r.result.repo == SomeRepo(repo) && repo.state == OK
  }

  /** A request gets an OK repository as its answer by finding it in the store, or by storing it. */
  lemma StepAnswers(t: Topology, net: Net, a: Action, i: nat, repo: Repo)
    requires Keyed(net) && Enabled(t, net, a) && i < |Step(t, net, a).requests|
    requires AnsweredWith(Step(t, net, a).requests[i], repo)
    ensures i < |net.requests|
    ensures AnsweredWith(net.requests[i], repo) ||
            ((a == Finish(i) || a == Lookup(i))
             && At(Step(t, net, a), net.requests[i].node, net.requests[i].q.key) == SomeRepo(repo))
  {
    if i < |net.requests| {
      assert AnswerOk(net.requests[i]);
    }
  }

  /** In every run, a request answered with an OK repository had it under its key, at its node, when it was answered:
      by the finish that stored it, or by the lookup that found it. */
  lemma {:induction false} AnswerHeld(t: Topology, net: Net, run: seq<Action>, i: nat, repo: Repo) returns (p: nat)
    requires Initial(net) && Schedule(t, net, run) && i < |Exec(t, net, run).requests|
    requires AnsweredWith(Exec(t, net, run).requests[i], repo)
    ensures 0 < p <= |run| && (run[p - 1] == Finish(i) || run[p - 1] == Lookup(i))
    ensures var r := Exec(t, net, run).requests[i]; At(After(t, net, run, p), r.node, r.q.key) == SomeRepo(repo)
    decreases |run|
  {
    hide Step, Enabled, Exec, Schedule, At, AnsweredWith, Keyed, RelayInv, Markers;
    if run == [] {
      NoAnswerYet(t, net, i, repo);
    } else {
      var n := |run| - 1;
      var before, a := After(t, net, run, n), run[n];
      SplitRun(t, net, run, n);
      LastStep(t, net, run);
      InitialInv(t, net);
      RunInv(t, net, run[..n]);
      StepAnswers(t, before, a, i, repo);
      StepRequests(t, before, a, i);
      AfterPrefix(t, net, run, n, n);
      if AnsweredWith(before.requests[i], repo) {
        p := AnswerHeld(t, net, run[..n], i, repo);
        AfterPrefix(t, net, run, n, p);
      } else {
        p := |run|;
        assert run[..p] == run;
      }
    }
  }

  lemma NoAnswerYet(t: Topology, net: Net, i: nat, repo: Repo)
    requires Initial(net)
    ensures i >= |Exec(t, net, []).requests|
  {
  }

  /** From then on it is kept in every continuation with harmless outside writes exactly if it is unthreatened then. */
  lemma AnswerKeptIff(t: Topology, net: Net, run: seq<Action>, p: nat, node: Node, key: string, repo: Repo)
    requires Initial(net) && Schedule(t, net, run) && p <= |run| && repo.state == OK
    requires At(After(t, net, run, p), node, key) == SomeRepo(repo)
    ensures AlwaysKept(t, After(t, net, run, p), node, key, repo)
            <==> Unthreatened(t, After(t, net, run, p), node, key, repo)
    ensures Unthreatened(t, After(t, net, run, p), node, key, repo) && Harmlessly(t, run[p..], node, key, repo) ==>
              At(Exec(t, net, run), node, key) == SomeRepo(repo)
  {
    hide Exec, Schedule, At, Unthreatened, Harmlessly, AlwaysKept, Inv;
    SplitRun(t, net, run, p);
    InitialInv(t, net);
    RunInv(t, net, run[..p]);
    OkKeptIff(t, After(t, net, run, p), node, key, repo);
    if Unthreatened(t, After(t, net, run, p), node, key, repo) && Harmlessly(t, run[p..], node, key, repo) {
      UnthreatenedPersists(t, After(t, net, run, p), run[p..], node, key, repo);
    }
  }

  /** A request that was relayed and is done with a repository has the one its relay was done with. */
  lemma AnsweredByRelay(t: Topology, net: Net, run: seq<Action>, i: nat, c: nat)
    requires Initial(net) && Schedule(t, net, run)
    requires var rs := Exec(t, net, run).requests;
             && i < |rs| && c < |rs| && rs[c].caller == RelayOf(i)
             && rs[i].phase == Done && rs[i].result.repo.SomeRepo?
    ensures var rs := Exec(t, net, run).requests;
            rs[c].phase == Done && rs[c].result.repo == rs[i].result.repo
            && rs[c].q.key == rs[i].q.key && rs[c].q.root == rs[i].q.root && rs[c].q.meta == rs[i].q.meta
            && rs[c].q.valid == rs[i].q.valid && !rs[c].q.recurse && rs[c].node == t.route(MetaHost(rs[i].q.meta))
  {
    hide Exec, Schedule, Keyed, OneRelayEach;
    InitialInv(t, net);
    RunInv(t, net, run);
    var net' := Exec(t, net, run);
    assert LinkOk(t, net', c) && FromRelay(t, net', c);
  }

  /** From this point of the run on the repository is unthreatened, and outside writes are harmless. */
  ghost predicate SafeFrom(t: Topology, net: Net, run: seq<Action>, p: nat, node: Node, key: string, repo: Repo)
    requires p <= |run| && Schedule(t, net, run)
  {
    Unthreatened(t, After(t, net, run, p), node, key, repo) && Harmlessly(t, run[p..], node, key, repo)
  }

  /** Back-fill, in every run: a request that was relayed and is done with an OK repository has had it under the
      requested key in its own node's store, and the node it was relayed to has had the same one under that key; each
      still has it if it was safe from then on. */
  lemma BackFill(t: Topology, net: Net, run: seq<Action>, i: nat, c: nat, repo: Repo) returns (p: nat, p': nat)
    requires Initial(net) && Schedule(t, net, run)
    requires var rs := Exec(t, net, run).requests;
             && i < |rs| && c < |rs| && rs[c].caller == RelayOf(i)
             && rs[i].phase == Done && rs[i].result.repo == SomeRepo(repo) && repo.state == OK
    ensures 0 < p <= |run| && (run[p - 1] == Finish(i) || run[p - 1] == Lookup(i))
    ensures 0 < p' <= |run| && (run[p' - 1] == Finish(c) || run[p' - 1] == Lookup(c))
    ensures var r := Exec(t, net, run).requests[i]; var back := t.route(MetaHost(r.q.meta));
            && At(After(t, net, run, p), r.node, r.q.key) == SomeRepo(repo)
            && At(After(t, net, run, p'), back, r.q.key) == SomeRepo(repo)
            && (SafeFrom(t, net, run, p, r.node, r.q.key, repo) ==>
                  At(Exec(t, net, run), r.node, r.q.key) == SomeRepo(repo))
            && (SafeFrom(t, net, run, p', back, r.q.key, repo) ==>
                  At(Exec(t, net, run), back, r.q.key) == SomeRepo(repo))
  {
    hide Exec, Schedule, At, Unthreatened, Harmlessly, AlwaysKept;
    AnsweredByRelay(t, net, run, i, c);
    var r, back := Exec(t, net, run).requests[i], Exec(t, net, run).requests[c];
    p := AnswerHeld(t, net, run, i, repo);
    p' := AnswerHeld(t, net, run, c, repo);
    AnswerKeptIff(t, net, run, p, r.node, r.q.key, repo);
    AnswerKeptIff(t, net, run, p', back.node, r.q.key, repo);
  }

  // ----- at most one hop

  /** The requests made to serve request `i`: itself and its relay, if any. */
  ghost function Handlers(net: Net, i: nat): set<nat> {
    set j | 0 <= j < |net.requests| && (j == i || net.requests[j].caller == RelayOf(i))
  }

  /** In every run and every topology, a client's request is served by itself and at most one relay, and a
      relay is never relayed: at most two nodes handle a request. */
  lemma AtMostOneHop(t: Topology, net: Net, run: seq<Action>, i: nat)
    requires Initial(net) && Schedule(t, net, run) && i < |Exec(t, net, run).requests|
    ensures var net' := Exec(t, net, run);
            && |Handlers(net', i)| <= 2
            && (net'.requests[i].caller != Client ==> Handlers(net', i) == {i})
  {
    hide Exec, Schedule, Keyed, FromRelays;
    InitialInv(t, net);
    RunInv(t, net, run);
    var net' := Exec(t, net, run);
    var hs := Handlers(net', i);
    assert i in hs;
    if c :| c in hs && c != i {
      assert LinkOk(t, net', c);
      forall j | j in hs && j != i ensures j == c {
        OneRelayOf(net', j, c);
      }
      assert hs == {i, c};
    } else {
      assert hs == {i};
    }
  }
}
