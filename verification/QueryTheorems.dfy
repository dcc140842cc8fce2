/** What the queued requests ask for, whatever the order in which the hosts are taken. */
module QueryTheorems {
  import opened Repos
  import opened Queries

  ghost function KeysIn(plan: Plan): multiset<string> {
    match plan
    case ToLocal(key) => multiset{key}
    case ToRemote(_, keys) => multiset(keys)
  }

  /** All repository keys requested, with multiplicity. */
  ghost function PlanKeys(plans: seq<Plan>): multiset<string> {
    if plans == [] then multiset{} else PlanKeys(plans[..|plans| - 1]) + KeysIn(plans[|plans| - 1])
  }

  ghost function RemoteRequests(plans: seq<Plan>): nat {
    if plans == [] then 0
    else RemoteRequests(plans[..|plans| - 1]) + if plans[|plans| - 1].ToRemote? then 1 else 0
  }

  ghost function KeysOfHosts(repos: seq<Repo>, hosts: seq<string>): multiset<string> {
    if hosts == [] then multiset{}
    else KeysOfHosts(repos, hosts[..|hosts| - 1]) + multiset(KeysAt(repos, hosts[|hosts| - 1]))
  }

  ghost predicate Differ(hosts: seq<string>) {
    forall i, j :: 0 <= i < j < |hosts| ==> hosts[i] != hosts[j]
  }

  // ----- plans put together

  lemma {:induction false} PlanKeysConcat(a: seq<Plan>, b: seq<Plan>)
    ensures PlanKeys(a + b) == PlanKeys(a) + PlanKeys(b)
    ensures RemoteRequests(a + b) == RemoteRequests(a) + RemoteRequests(b)
    decreases |b|
  {
    if b == [] {
      assert a + b == a;
    } else {
      assert (a + b)[..|a + b| - 1] == a + b[..|b| - 1];
      PlanKeysConcat(a, b[..|b| - 1]);
    }
  }

  lemma PlanKeysPush(plans: seq<Plan>, plan: Plan)
    ensures PlanKeys(plans + [plan]) == PlanKeys(plans) + KeysIn(plan)
    ensures RemoteRequests(plans + [plan]) == RemoteRequests(plans) + if plan.ToRemote? then 1 else 0
  {
    assert (plans + [plan])[..|plans|] == plans;
  }

  lemma {:induction false} LocalsKeys(keys: seq<string>)
    ensures PlanKeys(Locals(keys)) == multiset(keys) && RemoteRequests(Locals(keys)) == 0
  {
    hide PlanKeys, RemoteRequests;
    if keys == [] {
      NoPlans();
    } else {
      var init, key := keys[..|keys| - 1], keys[|keys| - 1];
      LocalsKeys(init);
      PlanKeysPush(Locals(init), ToLocal(key));
      assert keys == init + [key];
    }
  }

  lemma HostPlanKeys(c: Config, repos: seq<Repo>, host: string)
    ensures PlanKeys(HostPlan(c, repos, host)) == multiset(KeysAt(repos, host))
    ensures RemoteRequests(HostPlan(c, repos, host)) == if IsLocal(c.host, host) then 0 else 1
  {
    LocalsKeys(KeysAt(repos, host));
    var plan := ToRemote(GetAddress(host, c.portRpc), KeysAt(repos, host));
    assert [plan][..0] == [];
  }

  lemma {:induction false} PlansKeys(c: Config, repos: seq<Repo>, served: seq<string>)
    ensures PlanKeys(Plans(c, repos, served)) == KeysOfHosts(repos, served)
    ensures RemoteRequests(Plans(c, repos, served)) == Remotes(c, served)
  {
    hide HostPlan, PlanKeys, RemoteRequests;
    if served == [] {
      NoPlans();
    } else {
      var init, host := served[..|served| - 1], served[|served| - 1];
      PlansKeys(c, repos, init);
      HostPlanKeys(c, repos, host);
      PlanKeysConcat(Plans(c, repos, init), HostPlan(c, repos, host));
    }
  }

  lemma NoPlans()
    ensures PlanKeys([]) == multiset{} && RemoteRequests([]) == 0
  {
  }

  // ----- all hosts together have all keys

  lemma KeysAtGains(repos: seq<Repo>, repo: Repo, h: string)
    ensures multiset(KeysAt(repos + [repo], h))
         == multiset(KeysAt(repos, h)) + if h == repo.Host() then multiset{repo.key} else multiset{}
  {
  }

  lemma InOrLast(hosts: seq<string>, host: string)
    requires hosts != [] && Differ(hosts)
    ensures Differ(hosts[..|hosts| - 1]) && hosts[|hosts| - 1] !in hosts[..|hosts| - 1]
    ensures host in hosts <==> host in hosts[..|hosts| - 1] || host == hosts[|hosts| - 1]
  {
  }

  lemma {:induction false} OneHostGains(repos: seq<Repo>, repo: Repo, hosts: seq<string>)
    requires Differ(hosts)
    ensures KeysOfHosts(repos + [repo], hosts)
         == KeysOfHosts(repos, hosts) + if repo.Host() in hosts then multiset{repo.key} else multiset{}
  {
    hide KeysAt, Differ;
    if hosts != [] {
      InOrLast(hosts, repo.Host());
      OneHostGains(repos, repo, hosts[..|hosts| - 1]);
      KeysAtGains(repos, repo, hosts[|hosts| - 1]);
    }
  }

  lemma {:induction false} NoKeys(hosts: seq<string>)
    ensures KeysOfHosts([], hosts) == multiset{}
  {
    if hosts != [] {
      NoKeys(hosts[..|hosts| - 1]);
    }
  }

  lemma {:induction false} HostsHaveAllKeys(repos: seq<Repo>, hosts: seq<string>)
    requires Differ(hosts) && forall i :: 0 <= i < |repos| ==> repos[i].Host() in hosts
    ensures KeysOfHosts(repos, hosts) == AllKeys(repos)
  {
    if repos == [] {
      NoKeys(hosts);
    } else {
      var init, repo := repos[..|repos| - 1], repos[|repos| - 1];
      assert repos == init + [repo];
      forall i | 0 <= i < |init| ensures init[i].Host() in hosts {
        assert init[i] == repos[i];
      }
      HostsHaveAllKeys(init, hosts);
      OneHostGains(init, repo, hosts);
    }
  }

  lemma EnumeratesAll(repos: seq<Repo>, order: seq<string>)
    requires Enumerates(order, HostsOf(repos))
    ensures KeysOfHosts(repos, order) == AllKeys(repos)
  {
    forall i | 0 <= i < |repos| ensures repos[i].Host() in order {
      assert repos[i].Host() in HostsOf(repos);
    }
    HostsHaveAllKeys(repos, order);
  }

  // ----- the cap

  lemma {:induction false} ServedBelowCap(c: Config, order: seq<string>)
    ensures c.maxSearchReqBe > 0 ==> Remotes(c, order[..Served(c, order)]) <= c.maxSearchReqBe
  {
    if order != [] {
      var init := order[..|order| - 1];
      ServedBelowCap(c, init);
      var n := Served(c, init);
      assert init[..n] == order[..n];
      if Served(c, order) == |order| {
        assert order[..|order|] == order && init[..|init|] == init;
      }
    }
  }

  /** Never more remote requests than the cap, if there is one. */
  lemma CapHolds(c: Config, repos: seq<Repo>, order: seq<string>)
    requires c.maxSearchReqBe > 0
    ensures RemoteRequests(Plans(c, repos, order[..Served(c, order)])) <= c.maxSearchReqBe
  {
    PlansKeys(c, repos, order[..Served(c, order)]);
    ServedBelowCap(c, order);
  }

  lemma {:induction false} RemotesGrow(c: Config, order: seq<string>, n: nat)
    requires n <= |order|
    ensures Remotes(c, order[..n]) <= Remotes(c, order)
    decreases |order|
  {
    if n < |order| {
      assert order[..|order| - 1][..n] == order[..n];
      RemotesGrow(c, order[..|order| - 1], n);
    } else {
      assert order[..n] == order;
    }
  }

  /** Every host of an order is served exactly when the cap is not reached before its last host. */
  lemma {:induction false} AllServedIff(c: Config, order: seq<string>)
    ensures Served(c, order) == |order| <==>
            order == [] || !CapReached(c.maxSearchReqBe, Remotes(c, order[..|order| - 1]))
  {
    if order != [] {
      var init := order[..|order| - 1];
      AllServedIff(c, init);
      if init != [] {
        assert init[..|init| - 1] == order[..|order| - 2];
        RemotesGrow(c, init, |init| - 1);
      }
    }
  }

  lemma {:induction false} KeysOfPrefix(repos: seq<Repo>, hosts: seq<string>, n: nat)
    requires n <= |hosts|
    ensures |KeysOfHosts(repos, hosts[..n])| <= |KeysOfHosts(repos, hosts)|
    ensures n < |hosts| && KeysAt(repos, hosts[|hosts| - 1]) != [] ==>
              |KeysOfHosts(repos, hosts[..n])| < |KeysOfHosts(repos, hosts)|
    decreases |hosts|
  {
    if n < |hosts| {
      assert hosts[..|hosts| - 1][..n] == hosts[..n];
      KeysOfPrefix(repos, hosts[..|hosts| - 1], n);
      var keys := KeysAt(repos, hosts[|hosts| - 1]);
      assert |multiset(keys)| == |keys|;
    } else {
      assert hosts[..n] == hosts;
    }
  }

  lemma {:induction false} HostHasKey(repos: seq<Repo>, h: string)
    requires h in HostsOf(repos)
    ensures KeysAt(repos, h) != []
  {
    var i :| 0 <= i < |repos| && repos[i].Host() == h;
    var init := repos[..|repos| - 1];
    if i < |init| {
      assert init[i].Host() == h;
      HostHasKey(init, h);
    }
  }

  /** For one iteration order: the requests ask for every selected repository, as often as it was selected,
      exactly when the cap is not reached before the last host. */
  lemma CompleteIff(c: Config, repos: seq<Repo>, order: seq<string>)
    requires Enumerates(order, HostsOf(repos))
    ensures PlanKeys(Plans(c, repos, order[..Served(c, order)])) == AllKeys(repos) <==>
            order == [] || !CapReached(c.maxSearchReqBe, Remotes(c, order[..|order| - 1]))
  {
    hide HostsOf;
    var n := Served(c, order);
    PlansKeys(c, repos, order[..n]);
    EnumeratesAll(repos, order);
    AllServedIff(c, order);
    if n == |order| {
      assert order[..n] == order;
    } else {
      assert order[|order| - 1] in order;
      HostHasKey(repos, order[|order| - 1]);
      KeysOfPrefix(repos, order, n);
    }
  }

  // ----- all iteration orders

  ghost function RemoteHosts(c: Config, hosts: set<string>): set<string> {
    set h | h in hosts && !IsLocal(c.host, h)
  }

  lemma {:induction false} RemotesCount(c: Config, order: seq<string>, hosts: set<string>)
    requires Enumerates(order, hosts)
    ensures Remotes(c, order) == |RemoteHosts(c, hosts)|
    decreases |order|
  {
    hide IsLocal;
    if order == [] {
      assert RemoteHosts(c, hosts) == {};
    } else {
      var init, h := order[..|order| - 1], order[|order| - 1];
      assert order == init + [h] && h in order && h !in init;
      var rest := hosts - {h};
      assert Enumerates(init, rest);
      RemotesCount(c, init, rest);
      assert h in RemoteHosts(c, hosts) ==> RemoteHosts(c, hosts) == RemoteHosts(c, rest) + {h};
      assert h !in RemoteHosts(c, hosts) ==> RemoteHosts(c, hosts) == RemoteHosts(c, rest);
    }
  }

  /** With the cap off, or fewer remote hosts than the cap, no order loses a key. */
  lemma BelowCapComplete(c: Config, repos: seq<Repo>, order: seq<string>)
    requires Enumerates(order, HostsOf(repos))
    requires c.maxSearchReqBe <= 0 || |RemoteHosts(c, HostsOf(repos))| < c.maxSearchReqBe
    ensures PlanKeys(Plans(c, repos, order[..Served(c, order)])) == AllKeys(repos)
  {
    CompleteIff(c, repos, order);
    RemotesCount(c, order, HostsOf(repos));
    if order != [] {
      RemotesGrow(c, order, |order| - 1);
    }
  }

  lemma {:induction false} SomeOrder(s: set<string>) returns (order: seq<string>)
    ensures Enumerates(order, s)
  {
    if s == {} {
      order := [];
    } else {
      var h :| h in s;
      var rest := SomeOrder(s - {h});
      order := rest + [h];
    }
  }

  /** The cap may be met, and there may be hosts left that then are not asked. */
  ghost predicate CapMayBind(c: Config, hosts: set<string>) {
    && c.maxSearchReqBe > 0
    && |RemoteHosts(c, hosts)| >= c.maxSearchReqBe
    && (|RemoteHosts(c, hosts)| == c.maxSearchReqBe ==> exists h :: h in hosts && IsLocal(c.host, h))
  }

  /** If the cap may bind, some order loses keys: the remote hosts first. */
  lemma SomeOrderLoses(c: Config, repos: seq<Repo>) returns (order: seq<string>)
    requires CapMayBind(c, HostsOf(repos))
    ensures Enumerates(order, HostsOf(repos))
    ensures PlanKeys(Plans(c, repos, order[..Served(c, order)])) != AllKeys(repos)
  {
    hide HostsOf, IsLocal, Plans, Served, PlanKeys, AllKeys, RemoteHosts;
    var hosts := HostsOf(repos);
    var last := LastHost(c, hosts);
    var init := SomeOrder(hosts - {last});
    order := init + [last];
    LastInOrder(hosts, init, last);
    RemotesCount(c, init, hosts - {last});
    CompleteIff(c, repos, order);
  }

  /** A host before which the cap can be met. */
  lemma LastHost(c: Config, hosts: set<string>) returns (last: string)
    requires CapMayBind(c, hosts)
    ensures last in hosts && |RemoteHosts(c, hosts - {last})| >= c.maxSearchReqBe
  {
    hide IsLocal;
    var remote := RemoteHosts(c, hosts);
    if |remote| == c.maxSearchReqBe {
      last :| last in hosts && IsLocal(c.host, last);
      assert last !in remote;
    } else {
      last :| last in remote;
    }
    assert RemoteHosts(c, hosts - {last}) == remote - {last};
  }

  lemma LastInOrder(hosts: set<string>, init: seq<string>, last: string)
    requires last in hosts && Enumerates(init, hosts - {last})
    ensures Enumerates(init + [last], hosts) && (init + [last])[..|init|] == init
  {
  }

  /** Every order asks for every selected repository exactly when the cap cannot bind: it is off, there are
      fewer remote hosts than it, or just as many and no local host. */
  lemma AllOrdersCompleteIff(c: Config, repos: seq<Repo>)
    ensures (forall order :: Enumerates(order, HostsOf(repos)) ==>
               PlanKeys(Plans(c, repos, order[..Served(c, order)])) == AllKeys(repos))
            <==> !CapMayBind(c, HostsOf(repos))
  {
    if CapMayBind(c, HostsOf(repos)) {
      var order := SomeOrderLoses(c, repos);
    } else {
      forall order | Enumerates(order, HostsOf(repos))
        ensures PlanKeys(Plans(c, repos, order[..Served(c, order)])) == AllKeys(repos)
      {
        NotBoundComplete(c, repos, order);
      }
    }
  }

  lemma NotBoundComplete(c: Config, repos: seq<Repo>, order: seq<string>)
    requires Enumerates(order, HostsOf(repos)) && !CapMayBind(c, HostsOf(repos))
    ensures PlanKeys(Plans(c, repos, order[..Served(c, order)])) == AllKeys(repos)
  {
    var hosts := HostsOf(repos);
    RemotesCount(c, order, hosts);
    CompleteIff(c, repos, order);
    if order != [] {
      RemotesGrow(c, order, |order| - 1);
      assert order[|order| - 1] in order;
      assert order[|order| - 1] in hosts;
    }
  }

  // ----- each request is for one host

  /** Each request is for one host that is served: a remote one is addressed to it and has all its keys, a local
      one has one of its keys. */
  lemma {:induction false} OneHostEach(c: Config, repos: seq<Repo>, served: seq<string>, plan: Plan)
    requires plan in Plans(c, repos, served)
    ensures exists h :: h in served && PlanFor(c, repos, h, plan)
  {
    var init, h := served[..|served| - 1], served[|served| - 1];
    if plan in Plans(c, repos, init) {
      OneHostEach(c, repos, init, plan);
      var g :| g in init && PlanFor(c, repos, g, plan);
      assert g in served;
    } else {
      assert plan in HostPlan(c, repos, h);
      if IsLocal(c.host, h) {
        LocalsIn(KeysAt(repos, h), plan);
      }
      AddressIs(h, c.portRpc);
      assert h in served && PlanFor(c, repos, h, plan);
    }
  }

  ghost predicate PlanFor(c: Config, repos: seq<Repo>, h: string, plan: Plan) {
    match plan
    case ToLocal(key) => IsLocal(c.host, h) && key in KeysAt(repos, h)
    case ToRemote(addr, keys) =>
      !IsLocal(c.host, h) && addr == h + ":" + BarePort(c.portRpc) && keys == KeysAt(repos, h)
  }

  lemma {:induction false} LocalsIn(keys: seq<string>, plan: Plan)
    requires plan in Locals(keys)
    ensures plan.ToLocal? && plan.key in keys
  {
    var init, key := keys[..|keys| - 1], keys[|keys| - 1];
    if plan in Locals(init) {
      LocalsIn(init, plan);
    }
    assert keys == init + [key];
  }

  // ----- the shared metadata

  lemma AddressTells(g: string, h: string, port: string)
    requires GetAddress(g, port) == GetAddress(h, port)
    ensures g == h
  {
    var rest := ":" + BarePort(port);
    AddressIs(g, port);
    AddressIs(h, port);
    assert g + ":" + BarePort(port) == g + rest && h + ":" + BarePort(port) == h + rest;
    assert g == (g + rest)[..|g + rest| - |rest|] && h == (h + rest)[..|h + rest| - |rest|];
  }

  /** A request made after all are queued finds the metadata naming the last host served. Its address is right
      all the same, but an error of a remote request is filed under the host it was sent to exactly when that
      host is the last one. */
  lemma FiledRightIff(c: Config, repos: seq<Repo>, served: seq<string>, requests: seq<Request>, meta: MetaMap, i: nat)
    requires served != [] && Carries(requests, Plans(c, repos, served), meta)
    requires MetaHost(meta.m) == served[|served| - 1]
    requires i < |requests| && requests[i].Remote?
    ensures exists h :: h in served && PlanFor(c, repos, h, PlanOf(requests[i]))
    ensures requests[i].addr == GetAddress(FiledUnder(requests[i]), c.portRpc) <==>
            PlanFor(c, repos, served[|served| - 1], PlanOf(requests[i]))
  {
    hide Plans, KeysAt, IsLocal, GetAddress;
    var plan, last := PlanOf(requests[i]), served[|served| - 1];
    assert plan in Plans(c, repos, served);
    OneHostEach(c, repos, served, plan);
    var h :| h in served && PlanFor(c, repos, h, plan);
    AddressIs(h, c.portRpc);
    AddressIs(last, c.portRpc);
    if plan.addr == GetAddress(last, c.portRpc) {
      AddressTells(h, last, c.portRpc);
    }
  }

  /** Every remote request of these hosts is addressed to the last of them, the one its errors are filed under. */
  ghost predicate FilesRight(c: Config, repos: seq<Repo>, served: seq<string>) {
    forall plan :: plan in Plans(c, repos, served) && plan.ToRemote? ==>
      plan.addr == GetAddress(served[|served| - 1], c.portRpc)
  }

  /** So it is exactly when every host before the last one is local. */
  lemma FilesRightIff(c: Config, repos: seq<Repo>, served: seq<string>)
    requires Differ(served)
    ensures FilesRight(c, repos, served) <==> forall i :: 0 <= i < |served| - 1 ==> IsLocal(c.host, served[i])
  {
    hide KeysAt, IsLocal, GetAddress, HostPlan;
    if forall i :: 0 <= i < |served| - 1 ==> IsLocal(c.host, served[i]) {
      forall plan | plan in Plans(c, repos, served) && plan.ToRemote?
        ensures plan.addr == GetAddress(served[|served| - 1], c.portRpc)
      {
        OneHostEach(c, repos, served, plan);
        var h :| h in served && PlanFor(c, repos, h, plan);
        AddressIs(h, c.portRpc);
        var i :| 0 <= i < |served| && served[i] == h;
      }
    }
    if FilesRight(c, repos, served) {
      forall i | 0 <= i < |served| - 1 ensures IsLocal(c.host, served[i]) {
        if !IsLocal(c.host, served[i]) {
          RemotePlanned(c, repos, served, i);
          AddressTells(served[i], served[|served| - 1], c.portRpc);
        }
      }
    }
  }

  lemma {:induction false} RemotePlanned(c: Config, repos: seq<Repo>, served: seq<string>, i: nat)
    requires i < |served| && !IsLocal(c.host, served[i])
    ensures ToRemote(GetAddress(served[i], c.portRpc), KeysAt(repos, served[i])) in Plans(c, repos, served)
    decreases |served|
  {
    hide KeysAt, IsLocal, GetAddress;
    if i < |served| - 1 {
      RemotePlanned(c, repos, served[..|served| - 1], i);
    }
  }

  /** The hosts served include every prefix of the order that is served. */
  lemma {:induction false} ServedAtLeast(c: Config, order: seq<string>, n: nat)
    requires n <= |order| && Served(c, order[..n]) == n
    ensures n <= Served(c, order)
    decreases |order|
  {
    if n < |order| {
      assert order[..|order| - 1][..n] == order[..n];
      ServedAtLeast(c, order[..|order| - 1], n);
    } else {
      assert order[..n] == order;
    }
  }

  /** The cap was not reached before the last host served. */
  lemma {:induction false} BelowCapBefore(c: Config, order: seq<string>)
    ensures var n := Served(c, order); 0 < n ==> !CapReached(c.maxSearchReqBe, Remotes(c, order[..n - 1]))
    decreases |order|
  {
    if order != [] {
      var init, n := order[..|order| - 1], Served(c, order);
      BelowCapBefore(c, init);
      if n < |order| && 0 < n {
        assert init[..n - 1] == order[..n - 1];
      }
    }
  }

  lemma {:induction false} NoRemotes(c: Config, order: seq<string>)
    requires Remotes(c, order) == 0
    ensures forall i :: 0 <= i < |order| ==> IsLocal(c.host, order[i])
  {
    hide IsLocal;
    if order != [] {
      NoRemotes(c, order[..|order| - 1]);
    }
  }

  /** There is no remote host, or one host only, or a cap of one. */
  ghost predicate FilesRightAlways(c: Config, hosts: set<string>) {
    RemoteHosts(c, hosts) == {} || |hosts| == 1 || c.maxSearchReqBe == 1
  }

  lemma PrefixDiffers(order: seq<string>, n: nat)
    requires Differ(order) && n <= |order|
    ensures Differ(order[..n])
  {
  }

  lemma AlwaysFiledRight(c: Config, repos: seq<Repo>, order: seq<string>)
    requires Enumerates(order, HostsOf(repos)) && FilesRightAlways(c, HostsOf(repos))
    ensures FilesRight(c, repos, order[..Served(c, order)])
  {
    hide IsLocal, Plans, HostsOf, FilesRight;
    var n := Served(c, order);
    PrefixDiffers(order, n);
    FilesRightIff(c, repos, order[..n]);
    if c.maxSearchReqBe == 1 {
      BelowCapBefore(c, order);
      if n > 0 {
        NoRemotes(c, order[..n - 1]);
      }
    } else if |HostsOf(repos)| == 1 {
      assert forall i :: 0 <= i < |order| ==> order[i] in order;
      TakenSize(order, HostsOf(repos));
    } else {
      forall i | 0 <= i < n ensures IsLocal(c.host, order[i]) {
        assert order[i] in order && order[i] in HostsOf(repos);
        assert order[i] !in RemoteHosts(c, HostsOf(repos));
      }
    }
  }

  /** With a remote host, another host and no cap of one: the order that takes the remote host first serves both,
      and the remote host's errors are filed under another. */
  lemma SomeOrderMisfiles(c: Config, repos: seq<Repo>) returns (order: seq<string>)
    requires !FilesRightAlways(c, HostsOf(repos))
    ensures Enumerates(order, HostsOf(repos)) && !FilesRight(c, repos, order[..Served(c, order)])
  {
    hide IsLocal, Plans, HostsOf, FilesRight;
    var hosts := HostsOf(repos);
    var h :| h in RemoteHosts(c, hosts);
    assert hosts == hosts - {h} + {h};
    assert hosts - {h} == {} ==> hosts == {h};
    var g :| g in hosts - {h};
    var rest := SomeOrder(hosts - {h} - {g});
    order := [h, g] + rest;
    FirstTwo(hosts, h, g, rest);
    FirstTwoServed(c, order);
    ServedAtLeast(c, order, 2);
    var n := Served(c, order);
    PrefixDiffers(order, n);
    FilesRightIff(c, repos, order[..n]);
    assert order[..n][0] == h;
  }

  lemma FirstTwo(hosts: set<string>, h: string, g: string, rest: seq<string>)
    requires h in hosts && g in hosts && g != h && Enumerates(rest, hosts - {h} - {g})
    ensures Enumerates([h, g] + rest, hosts)
  {
    var order := [h, g] + rest;
    forall i, j | 0 <= i < j < |order| ensures order[i] != order[j] {
      assert j >= 2 ==> order[j] in rest;
    }
    forall x ensures x in order <==> x in hosts {
      assert x in order <==> x == h || x == g || x in rest;
    }
  }

  lemma FirstTwoServed(c: Config, order: seq<string>)
    requires |order| >= 2 && c.maxSearchReqBe != 1
    ensures Served(c, order[..2]) == 2
  {
    hide IsLocal;
    assert order[..2][..1] == order[..1] && order[..1][..0] == [];
    assert Served(c, []) == 0 && Remotes(c, []) == 0;
    assert Served(c, order[..1]) == 1 && Remotes(c, order[..1]) <= 1;
  }
}
