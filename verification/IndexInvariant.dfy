/** What every run of the network of index requests keeps, whoever else writes the stores. */
module IndexInvariant {
  import opened Repos
  import opened IndexServer
  import opened IndexNet
  import DoSearch

  /** What a node's store holds under a key. */
  ghost function At(net: Net, node: Node, key: string): MaybeRepo {
    if node in net.stores && key in net.stores[node] then SomeRepo(net.stores[node][key]) else NoRepo
  }

  ghost predicate HasState(m: MaybeRepo, state: State) {
    m.SomeRepo? && m.repo.state == state
  }

  predicate Same(r: Request, node: Node, key: string) {
    r.node == node && r.q.key == key
  }

  ghost predicate KeyedBy(m: MaybeRepo, key: string) {
    m.SomeRepo? ==> m.repo.key == key
  }

  ghost predicate AnswerOk(r: Request) {
    && KeyedBy(r.result.repo, r.q.key)
    && (r.phase.Answered? && r.phase.o.Answer? ==> KeyedBy(r.phase.o.result.repo, r.q.key))
  }

  /** Stores and answers hold repositories under their keys. */
  ghost predicate Keyed(net: Net) {
    && (forall i :: 0 <= i < |net.requests| ==> net.requests[i].node in net.stores)
    && (forall node, key :: KeyedBy(At(net, node, key), key))
    && (forall i :: 0 <= i < |net.requests| ==> AnswerOk(net.requests[i]))
  }

  /** A request that has not got to relaying has no relay. */
  predicate Unrelayed(r: Request) {
    r.phase == Looking || r.phase == Absent || r.phase == Waiting(NotRelayed) || r.phase == Unserviceable
  }

  /** The request a relay was made for: a client's, not local, with recursion on; it passed its query on,
      recursion off, to the node at the query's host. */
  ghost predicate RelayedFor(t: Topology, net: Net, child: Request, p: nat) {
    && p < |net.requests| && net.requests[p].caller == Client && !Unrelayed(net.requests[p])
    && AsksTheSame(child.q, net.requests[p].q) && child.node == t.route(MetaHost(net.requests[p].q.meta))
  }

  /** A relay asks for what the request it is made for asks for, with recursion off. */
  predicate AsksTheSame(relayed: IndexQuery, q: IndexQuery) {
    && relayed.key == q.key && relayed.root == q.root && relayed.meta == q.meta && relayed.valid == q.valid
    && !relayed.recurse
  }

  ghost predicate LinkOk(t: Topology, net: Net, i: nat)
    requires i < |net.requests|
  {
    var r := net.requests[i];
    && (r.caller.RelayOf? ==> RelayedFor(t, net, r, r.caller.parent))
    && (r.phase.Waiting? ==> IsLocalRequest(t, r) || r.q.recurse)
    && (r.phase.Waiting? && r.phase.relayed.RelayedAs? ==>
          r.phase.relayed.child < |net.requests| && net.requests[r.phase.relayed.child].caller == RelayOf(i))
  }

  ghost predicate Links(t: Topology, net: Net) {
    forall i :: 0 <= i < |net.requests| ==> LinkOk(t, net, i)
  }

  /** No request is relayed twice. */
  ghost predicate OneRelayEach(net: Net) {
    forall i, j :: 0 <= i < j < |net.requests| && net.requests[i].caller.RelayOf? ==>
      net.requests[i].caller != net.requests[j].caller
  }

  /** The repository a request has been answered with, if any. */
  function Given(r: Request): MaybeRepo {
    match r.phase
    case Answered(Answer(result)) => result.repo
    case Clearing => r.result.repo
    case Done => r.result.repo
    case _ => NoRepo
  }

  /** A request that was relayed and has been answered with a repository has it from its relay, which is done. */
  ghost predicate FromRelay(t: Topology, net: Net, c: nat)
    requires c < |net.requests|
  {
    var child := net.requests[c];
    child.caller.RelayOf? && child.caller.parent < |net.requests| ==>
      var p := net.requests[child.caller.parent];
      !IsLocalRequest(t, p) && (Given(p).SomeRepo? ==> child.phase == Done && child.result.repo == Given(p))
  }

  ghost predicate FromRelays(t: Topology, net: Net) {
    forall c :: 0 <= c < |net.requests| ==> FromRelay(t, net, c)
  }

  /** What relaying keeps. */
  ghost predicate RelayInv(t: Topology, net: Net) {
    Links(t, net) && OneRelayEach(net) && FromRelays(t, net)
  }

  /** Between setting its marker and clearing up. */
  predicate Marking(r: Request) {
    r.phase.Waiting? || r.phase.Unserviceable? || r.phase.Answered? || r.phase == Clearing
  }

  ghost predicate MarkedFor(net: Net, node: Node, key: string) {
    exists i :: 0 <= i < |net.requests| && Marking(net.requests[i]) && Same(net.requests[i], node, key)
  }

  /** A marker is there only while a request that set one is in flight. */
  ghost predicate Markers(net: Net) {
    forall node, key :: HasState(At(net, node, key), INDEXING) ==> MarkedFor(net, node, key)
  }

  ghost predicate Inv(t: Topology, net: Net) {
    Keyed(net) && Markers(net) && RelayInv(t, net)
  }

  /** A network before any request: stores hold repositories under their keys, none being indexed. */
  ghost predicate Initial(net: Net) {
    && net.requests == []
    && forall node, key :: KeyedBy(At(net, node, key), key) && !HasState(At(net, node, key), INDEXING)
  }

  lemma InitialInv(t: Topology, net: Net)
    requires Initial(net)
    ensures Inv(t, net)
  {
  }

  // ----- what a step touches

  /** A step of a request that is there. */
  predicate Acts(a: Action) {
    a.Lookup? || a.SetMarker? || a.Relay? || a.Reply? || a.Finish? || a.Clear?
  }

  function Actor(a: Action): nat
    requires Acts(a)
  {
    match a
    case Lookup(i) => i
    case SetMarker(i) => i
    case Relay(i) => i
    case Reply(i, _) => i
    case Finish(i) => i
    case Clear(i) => i
  }

  predicate Writes(a: Action) {
    a.SetMarker? || a.Finish? || a.Clear?
  }

  /** A write of the key that is not an index request's. */
  predicate OutsideWrite(t: Topology, a: Action, node: Node, key: string) {
    match a
    case Report(n, updates) => n == node && key in updates && (updates[key].state == OK || t.deleteOnError(node))
    case Fault(n, repo) => n == node && repo.key == key
    case Remove(n, k) => n == node && k == key
    case _ => false
  }

  lemma ActorBound(t: Topology, net: Net, a: Action)
    requires Enabled(t, net, a) && Acts(a)
    ensures Actor(a) < |net.requests|
  {
  }

  /** Everything but the writing steps of a request, and other writes, leaves every store as it is. */
  lemma QuietFrame(t: Topology, net: Net, a: Action, node: Node, key: string)
    requires Enabled(t, net, a) && (a.Arrive? || a.Lookup? || a.Relay? || a.Reply?)
    ensures At(Step(t, net, a), node, key) == At(net, node, key)
  {
  }

  lemma WriteFrame(t: Topology, net: Net, a: Action, node: Node, key: string)
    requires Enabled(t, net, a) && Writes(a)
    requires AnswerOk(net.requests[Actor(a)]) && !Same(net.requests[Actor(a)], node, key)
    ensures At(Step(t, net, a), node, key) == At(net, node, key)
  {
  }

  lemma OutsideFrame(t: Topology, net: Net, a: Action, node: Node, key: string)
    requires Enabled(t, net, a) && (a.Report? || a.Fault? || a.Remove?) && !OutsideWrite(t, a, node, key)
    ensures At(Step(t, net, a), node, key) == At(net, node, key)
  {
  }

  /** A step of a request changes at most the request's own key at its own node; other writes what they name. */
  lemma StepFrame(t: Topology, net: Net, a: Action, node: Node, key: string)
    requires Enabled(t, net, a) && (Acts(a) ==> AnswerOk(net.requests[Actor(a)]))
    requires !OutsideWrite(t, a, node, key) && (Writes(a) ==> !Same(net.requests[Actor(a)], node, key))
    ensures At(Step(t, net, a), node, key) == At(net, node, key)
  {
    hide Step, At, Enabled, AnswerOk, OutsideWrite;
    if Writes(a) {
      WriteFrame(t, net, a, node, key);
    } else if a.Report? || a.Fault? || a.Remove? {
      OutsideFrame(t, net, a, node, key);
    } else {
      QuietFrame(t, net, a, node, key);
    }
  }

  /** Every request but the acting one, and the new one, is as it was. */
  lemma StepRequests(t: Topology, net: Net, a: Action, j: nat)
    requires Enabled(t, net, a) && j < |net.requests|
    ensures |net.requests| <= |Step(t, net, a).requests| <= |net.requests| + 1
    ensures !Acts(a) || j != Actor(a) ==> Step(t, net, a).requests[j] == net.requests[j]
    ensures Step(t, net, a).requests[j].node == net.requests[j].node
    ensures Step(t, net, a).requests[j].q == net.requests[j].q
    ensures Step(t, net, a).requests[j].caller == net.requests[j].caller
  {
  }

  lemma StepSize(t: Topology, net: Net, a: Action)
    requires Enabled(t, net, a)
    ensures |Step(t, net, a).requests| <= |net.requests| + 1
  {
  }

  lemma NewRequest(t: Topology, net: Net, a: Action)
    requires Enabled(t, net, a) && |Step(t, net, a).requests| > |net.requests|
    ensures a.Arrive? || a.Relay?
    ensures Step(t, net, a).requests[|net.requests|].phase == Looking
    ensures Step(t, net, a).requests[|net.requests|].node in net.stores
    ensures Step(t, net, a).requests[|net.requests|].result.repo == NoRepo
  {
  }

  /** The answer relayed back to a request is for its key. */
  lemma ReplyKeyed(t: Topology, net: Net, i: nat, o: Outcome)
    requires Keyed(net) && Links(t, net) && Enabled(t, net, Reply(i, o))
    ensures o.Answer? ==> KeyedBy(o.result.repo, net.requests[i].q.key)
  {
    var r := net.requests[i];
    assert LinkOk(t, net, i);
    if o.Answer? && !IsLocalRequest(t, r) && o.result.repo.SomeRepo? {
      assert LinkOk(t, net, r.phase.relayed.child);
      assert AnswerOk(net.requests[r.phase.relayed.child]);
    }
  }

  // ----- stores and answers under their keys

  /** The acting request and its key, after its step. */
  lemma ActorKeyed(t: Topology, net: Net, a: Action)
    requires Keyed(net) && Links(t, net) && Enabled(t, net, a) && Acts(a)
    ensures AnswerOk(Step(t, net, a).requests[Actor(a)])
    ensures var r := net.requests[Actor(a)]; KeyedBy(At(Step(t, net, a), r.node, r.q.key), r.q.key)
  {
    hide Links, LinkOk, Possible;
    if a.Reply? {
      ReplyKeyed(t, net, a.i, a.o);
    }
    var r := net.requests[Actor(a)];
    assert AnswerOk(r) && KeyedBy(At(net, r.node, r.q.key), r.q.key);
  }

  lemma OutsideKeyed(t: Topology, net: Net, a: Action, node: Node, key: string)
    requires Enabled(t, net, a) && OutsideWrite(t, a, node, key) && KeyedBy(At(net, node, key), key)
    ensures KeyedBy(At(Step(t, net, a), node, key), key)
  {
  }

  lemma StepKeyed(t: Topology, net: Net, a: Action, node: Node, key: string)
    requires Keyed(net) && Links(t, net) && Enabled(t, net, a)
    ensures KeyedBy(At(Step(t, net, a), node, key), key)
  {
    hide Links, Step, Enabled, At, AnswerOk, OutsideWrite;
    if Acts(a) {
      ActorBound(t, net, a);
      assert AnswerOk(net.requests[Actor(a)]);
    }
    if OutsideWrite(t, a, node, key) {
      OutsideKeyed(t, net, a, node, key);
    } else if Acts(a) && Same(net.requests[Actor(a)], node, key) {
      ActorKeyed(t, net, a);
    } else {
      StepFrame(t, net, a, node, key);
    }
  }

  lemma StoresKept(t: Topology, net: Net, a: Action)
    requires Enabled(t, net, a)
    ensures forall node :: node in net.stores ==> node in Step(t, net, a).stores
  {
  }

  lemma StepKeyedAll(t: Topology, net: Net, a: Action)
    requires Keyed(net) && Links(t, net) && Enabled(t, net, a)
    ensures Keyed(Step(t, net, a))
  {
    hide AnswerOk, Links, Step, Enabled, KeyedBy, At;
    var net' := Step(t, net, a);
    forall node, key ensures KeyedBy(At(net', node, key), key) {
      StepKeyed(t, net, a, node, key);
    }
    StoresKept(t, net, a);
    StepSize(t, net, a);
    forall j | 0 <= j < |net'.requests|
      ensures net'.requests[j].node in net'.stores && AnswerOk(net'.requests[j])
    {
      if j == |net.requests| {
        NewRequest(t, net, a);
        NewAnswer(net'.requests[j]);
      } else {
        StepRequests(t, net, a, j);
        if Acts(a) && j == Actor(a) {
          ActorKeyed(t, net, a);
        }
      }
    }
  }

  lemma NewAnswer(r: Request)
    requires r.phase == Looking && r.result.repo == NoRepo
    ensures AnswerOk(r)
  {
  }

  // ----- relaying

  lemma StepPhase(t: Topology, net: Net, a: Action, j: nat)
    requires Enabled(t, net, a) && j < |net.requests|
    ensures !Unrelayed(net.requests[j]) ==> !Unrelayed(Step(t, net, a).requests[j])
  {
  }

  lemma RelayedForKept(t: Topology, net: Net, a: Action, child: Request, p: nat)
    requires Enabled(t, net, a) && RelayedFor(t, net, child, p)
    ensures RelayedFor(t, Step(t, net, a), child, p)
  {
    hide Step, Enabled;
    StepPhase(t, net, a, p);
    StepRequests(t, net, a, p);
  }

  /** A relayed request has recursion off, so it is not relayed again. */
  lemma RelayByClient(t: Topology, net: Net, i: nat)
    requires Links(t, net) && Enabled(t, net, Relay(i))
    ensures net.requests[i].caller == Client
  {
    assert LinkOk(t, net, i);
  }

  lemma StepLinks(t: Topology, net: Net, a: Action)
    requires Links(t, net) && Enabled(t, net, a)
    ensures Links(t, Step(t, net, a))
  {
    hide Step, Enabled, LinkOk;
    var net' := Step(t, net, a);
    forall j | 0 <= j < |net'.requests|
      ensures LinkOk(t, net', j)
    {
      if j < |net.requests| {
        assert LinkOk(t, net, j);
        OldLink(t, net, a, j);
      } else {
        NewLink(t, net, a, j);
      }
    }
  }

  lemma OldLink(t: Topology, net: Net, a: Action, j: nat)
    requires Enabled(t, net, a) && j < |net.requests| && LinkOk(t, net, j)
    ensures j < |Step(t, net, a).requests| && LinkOk(t, Step(t, net, a), j)
  {
    hide RelayedFor;
    var r := net.requests[j];
    StepRequests(t, net, a, j);
    if r.caller.RelayOf? {
      RelayedForKept(t, net, a, r, r.caller.parent);
      SameRelay(t, Step(t, net, a), r, Step(t, net, a).requests[j], r.caller.parent);
    }
    if r.phase.Waiting? && r.phase.relayed.RelayedAs? {
      StepRequests(t, net, a, r.phase.relayed.child);
    }
  }

  lemma SameRelay(t: Topology, net: Net, r: Request, r': Request, p: nat)
    requires RelayedFor(t, net, r, p) && r'.q == r.q && r'.node == r.node
    ensures RelayedFor(t, net, r', p)
  {
  }

  lemma NewLink(t: Topology, net: Net, a: Action, j: nat)
    requires Links(t, net) && Enabled(t, net, a) && |net.requests| <= j < |Step(t, net, a).requests|
    ensures LinkOk(t, Step(t, net, a), j)
  {
    if a.Relay? {
      RelayByClient(t, net, a.i);
    }
  }

  lemma StepOneRelay(t: Topology, net: Net, a: Action)
    requires Links(t, net) && OneRelayEach(net) && Enabled(t, net, a)
    ensures OneRelayEach(Step(t, net, a))
  {
    hide Step, Enabled;
    var net' := Step(t, net, a);
    forall i, j | 0 <= i < j < |net'.requests| && net'.requests[i].caller.RelayOf?
      ensures net'.requests[i].caller != net'.requests[j].caller
    {
      StepSize(t, net, a);
      StepRequests(t, net, a, i);
      if j < |net.requests| {
        StepRequests(t, net, a, j);
      } else {
        NewCaller(t, net, a, j);
        assert LinkOk(t, net, i);
      }
    }
  }

  /** The caller of a new request has not been relayed before. */
  lemma NewCaller(t: Topology, net: Net, a: Action, j: nat)
    requires Enabled(t, net, a) && |net.requests| <= j < |Step(t, net, a).requests|
    ensures var c := Step(t, net, a).requests[j].caller;
            c == Client || (c.parent < |net.requests| && Unrelayed(net.requests[c.parent]))
  {
  }

  // ----- what a relay answers

  /** Requests that are done do not act. */
  lemma DoneStays(t: Topology, net: Net, a: Action, c: nat)
    requires Enabled(t, net, a) && c < |net.requests|
    ensures net.requests[c].phase == Done ==> Step(t, net, a).requests[c] == net.requests[c]
  {
  }

  /** Only an answer gives a request something new, and then it is waiting. */
  lemma StepGiven(t: Topology, net: Net, a: Action, i: nat)
    requires Enabled(t, net, a) && i < |net.requests| && !Unrelayed(net.requests[i])
    ensures Given(Step(t, net, a).requests[i]).SomeRepo? ==>
              || Given(Step(t, net, a).requests[i]) == Given(net.requests[i])
              || (a.Reply? && a.i == i && a.o.Answer? && Given(Step(t, net, a).requests[i]) == a.o.result.repo)
  {
  }

  /** A relayed call comes to what the relay was answered. */
  lemma RelayAnswers(t: Topology, net: Net, i: nat, o: Outcome, c: nat)
    requires Links(t, net) && OneRelayEach(net) && FromRelays(t, net) && Enabled(t, net, Reply(i, o))
    requires c < |net.requests| && net.requests[c].caller == RelayOf(i)
    requires o.Answer? && o.result.repo.SomeRepo?
    ensures net.requests[c].phase == Done && net.requests[c].result.repo == o.result.repo
  {
    assert FromRelay(t, net, c);
    assert LinkOk(t, net, i);
    var d := net.requests[i].phase.relayed.child;
    assert net.requests[d].caller == net.requests[c].caller;
    OneRelayOf(net, c, d);
  }

  lemma OneRelayOf(net: Net, c: nat, d: nat)
    requires OneRelayEach(net) && c < |net.requests| && d < |net.requests|
    requires net.requests[c].caller.RelayOf? && net.requests[c].caller == net.requests[d].caller
    ensures c == d
  {
  }

  lemma OldFromRelay(t: Topology, net: Net, a: Action, c: nat)
    requires Links(t, net) && OneRelayEach(net) && FromRelays(t, net) && Enabled(t, net, a) && c < |net.requests|
    ensures c < |Step(t, net, a).requests| && FromRelay(t, Step(t, net, a), c)
  {
    hide Step, Enabled, Given, OneRelayEach, Unrelayed;
    StepRequests(t, net, a, c);
    var child := net.requests[c];
    if child.caller.RelayOf? {
      assert FromRelay(t, net, c) && LinkOk(t, net, c);
      var p := child.caller.parent;
      StepRequests(t, net, a, p);
      StepGiven(t, net, a, p);
      DoneStays(t, net, a, c);
      if a.Reply? && a.i == p && a.o.Answer? && a.o.result.repo.SomeRepo? {
        RelayAnswers(t, net, p, a.o, c);
      }
    }
  }

  /** A relay is made by a request that is not local and has no answer yet. */
  lemma NewFromRelay(t: Topology, net: Net, a: Action, c: nat)
    requires Enabled(t, net, a) && |net.requests| <= c < |Step(t, net, a).requests|
    ensures FromRelay(t, Step(t, net, a), c)
  {
  }

  lemma StepFromRelays(t: Topology, net: Net, a: Action)
    requires RelayInv(t, net) && Enabled(t, net, a)
    ensures FromRelays(t, Step(t, net, a))
  {
    hide Step, Enabled, FromRelay;
    forall c | 0 <= c < |Step(t, net, a).requests|
      ensures FromRelay(t, Step(t, net, a), c)
    {
      if c < |net.requests| {
        OldFromRelay(t, net, a, c);
      } else {
        NewFromRelay(t, net, a, c);
      }
    }
  }

  // ----- markers

  /** A request that has set its marker keeps at it until it clears up. */
  lemma MarkingKept(t: Topology, net: Net, a: Action, i: nat)
    requires Enabled(t, net, a) && i < |net.requests| && Marking(net.requests[i]) && a != Clear(i)
    ensures i < |Step(t, net, a).requests| && Marking(Step(t, net, a).requests[i])
  {
  }

  /** Only a request that then is at it stores a marker; and one that clears up leaves none. */
  lemma WritesMarker(t: Topology, net: Net, a: Action, node: Node, key: string)
    requires Enabled(t, net, a) && Writes(a) && Same(net.requests[Actor(a)], node, key)
    ensures HasState(At(Step(t, net, a), node, key), INDEXING) ==>
              !a.Clear? && Actor(a) < |Step(t, net, a).requests| && Marking(Step(t, net, a).requests[Actor(a)])
  {
  }

  /** Searches and deletions store no marker. */
  lemma OutsideNoMarker(t: Topology, net: Net, a: Action, node: Node, key: string)
    requires Enabled(t, net, a) && OutsideWrite(t, a, node, key)
    ensures !HasState(At(Step(t, net, a), node, key), INDEXING)
  {
  }

  lemma MarkedKept(t: Topology, net: Net, a: Action, node: Node, key: string)
    requires Enabled(t, net, a) && MarkedFor(net, node, key)
    requires a.Clear? ==> !Same(net.requests[a.i], node, key)
    ensures MarkedFor(Step(t, net, a), node, key)
  {
    hide Step, Enabled, Marking;
    var i :| 0 <= i < |net.requests| && Marking(net.requests[i]) && Same(net.requests[i], node, key);
    MarkingKept(t, net, a, i);
    StepRequests(t, net, a, i);
    assert Same(Step(t, net, a).requests[i], node, key);
  }

  lemma StepMarker(t: Topology, net: Net, a: Action, node: Node, key: string)
    requires Keyed(net) && Markers(net) && Enabled(t, net, a)
    requires HasState(At(Step(t, net, a), node, key), INDEXING)
    ensures MarkedFor(Step(t, net, a), node, key)
  {
    hide Step, Enabled, At, AnswerOk, KeyedBy, Marking, OutsideWrite;
    if Acts(a) {
      ActorBound(t, net, a);
      assert AnswerOk(net.requests[Actor(a)]);
    }
    if Writes(a) && Same(net.requests[Actor(a)], node, key) {
      WritesMarker(t, net, a, node, key);
      StepRequests(t, net, a, Actor(a));
      assert Same(Step(t, net, a).requests[Actor(a)], node, key);
    } else if OutsideWrite(t, a, node, key) {
      OutsideNoMarker(t, net, a, node, key);
    } else {
      StepFrame(t, net, a, node, key);
      MarkedKept(t, net, a, node, key);
    }
  }

  lemma StepMarkers(t: Topology, net: Net, a: Action)
    requires Keyed(net) && Markers(net) && Enabled(t, net, a)
    ensures Markers(Step(t, net, a))
  {
    hide Step, Enabled, At, Keyed, MarkedFor;
    forall node, key | HasState(At(Step(t, net, a), node, key), INDEXING)
      ensures MarkedFor(Step(t, net, a), node, key)
    {
      StepMarker(t, net, a, node, key);
    }
  }

  // ----- every run

  lemma StepInv(t: Topology, net: Net, a: Action)
    requires Inv(t, net) && Enabled(t, net, a)
    ensures Inv(t, Step(t, net, a))
  {
    hide Step, Enabled, Keyed, Markers, Links, OneRelayEach, FromRelays;
    StepKeyedAll(t, net, a);
    StepMarkers(t, net, a);
    StepLinks(t, net, a);
    StepOneRelay(t, net, a);
    StepFromRelays(t, net, a);
  }

  /** Every run from an initial network keeps the invariant, however requests are interleaved. */
  lemma {:induction false} RunInv(t: Topology, net: Net, run: seq<Action>)
    requires Inv(t, net) && Schedule(t, net, run)
    ensures Inv(t, Exec(t, net, run))
    decreases run
  {
    hide Step, Enabled, Inv;
    if run != [] {
      StepInv(t, net, run[0]);
      RunInv(t, Step(t, net, run[0]), run[1..]);
    }
  }
}
