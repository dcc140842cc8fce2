/** Splitting a search over the hosts of the selected repositories, with a cap on remote requests. */
module Queries {
  import opened Repos

  /** A Go map: a reference to contents that every holder sees change. */
  class MetaMap {
    var m: Meta

    constructor (m: Meta)
      ensures this.m == m
    {
      this.m := m;
    }

    method SetHost(host: string)
      modifies this
      ensures m == old(m)["host" := host]
    {
      m := m["host" := host];
    }
  }

  /** A request as queued. Its query's keys are its own; its metadata is the caller's map. */
  datatype Request =
    | Local(keys: seq<string>, meta: MetaMap)
    | Remote(addr: string, keys: seq<string>, meta: MetaMap)

  const LocalHostnames: set<string> := {"", "localhost", "127.0.0.1", "::1"}

  predicate HasPrefix(s: string, prefix: string) {
    prefix <= s
  }

  predicate IsLocal(configHost: string, h: string) {
    h in LocalHostnames || h == configHost || HasPrefix(configHost, h + ".")
  }

  const DefaultRpcPort: string := "30800"

  function GetAddress(host: string, port: string): string {
    if port == "" then host + ":" + DefaultRpcPort
    else if port[0] != ':' then host + ":" + port
    else host + port
  }

  /** The port without its leading colon, if it has one; 30800 if there is none. */
  function BarePort(port: string): string {
    if port == "" then "30800" else if ":" <= port then port[1..] else port
  }

  /** An address is the host, one colon and the port, whether the port is configured with its colon or without. */
  lemma AddressIs(h: string, port: string)
    ensures GetAddress(h, port) == h + ":" + BarePort(port)
    ensures BarePort("") == BarePort("30800") == BarePort(":30800") == "30800" && BarePort(":" + port) == port
    ensures port != "" && port[0] != ':' ==> BarePort(port) == port
  {
  }

  /** Local are the names of this machine, the configured host, and that host without its domain. */
  lemma IsLocalIff(configHost: string, h: string)
    ensures IsLocal(configHost, h) <==>
            || h == "" || h == "localhost" || h == "127.0.0.1" || h == "::1" || h == configHost
            || exists domain :: configHost == h + "." + domain
  {
    if HasPrefix(configHost, h + ".") {
      assert configHost == h + "." + configHost[|h| + 1..];
    }
    forall domain | configHost == h + "." + domain ensures HasPrefix(configHost, h + ".") {
      assert configHost == (h + ".") + domain;
    }
  }

  datatype Config = Config(host: string, portRpc: string, maxSearchReqBe: int)

  // ----- what is asked for

  /** The keys of the repositories at a host, in their order. */
  function KeysAt(repos: seq<Repo>, host: string): seq<string> {
    if repos == [] then []
    else KeysAt(repos[..|repos| - 1], host)
         + if repos[|repos| - 1].Host() == host then [repos[|repos| - 1].key] else []
  }

  /** Repository by repository, in their order; one without a host counts as at the host "". */
  lemma {:induction false} KeysAtConcat(a: seq<Repo>, b: seq<Repo>, host: string)
    ensures KeysAt(a + b, host) == KeysAt(a, host) + KeysAt(b, host)
    ensures |b| == 1 ==>
              KeysAt(b, host)
              == if host == (if "host" in b[0].meta then b[0].meta["host"] else "") then [b[0].key] else []
    decreases |b|
  {
    if b == [] {
      assert a + b == a;
    } else {
      assert (a + b)[..|a + b| - 1] == a + b[..|b| - 1];
      KeysAtConcat(a, b[..|b| - 1], host);
    }
  }

  function HostsOf(repos: seq<Repo>): set<string> {
    set i | 0 <= i < |repos| :: repos[i].Host()
  }

  ghost function AllKeys(repos: seq<Repo>): multiset<string> {
    if repos == [] then multiset{} else AllKeys(repos[..|repos| - 1]) + multiset{repos[|repos| - 1].key}
  }

  /** An iteration order of a set: each element once. */
  ghost predicate Enumerates(order: seq<string>, s: set<string>) {
    && (forall h :: h in order <==> h in s)
    && (forall i, j :: 0 <= i < j < |order| ==> order[i] != order[j])
  }

  // ----- the requests for one iteration order, without the references

  datatype Plan = ToLocal(key: string) | ToRemote(addr: string, keys: seq<string>)

  function Locals(keys: seq<string>): seq<Plan> {
    if keys == [] then [] else Locals(keys[..|keys| - 1]) + [ToLocal(keys[|keys| - 1])]
  }

  /** One request for each key, in order. */
  lemma {:induction false} LocalsOneEach(keys: seq<string>)
    ensures |Locals(keys)| == |keys| && forall i :: 0 <= i < |keys| ==> Locals(keys)[i] == ToLocal(keys[i])
  {
    if keys != [] {
      LocalsOneEach(keys[..|keys| - 1]);
    }
  }

  predicate CapReached(max: int, countBe: nat) {
    max > 0 && countBe >= max
  }

  function HostPlan(c: Config, repos: seq<Repo>, host: string): seq<Plan> {
    if IsLocal(c.host, host) then Locals(KeysAt(repos, host))
    else [ToRemote(GetAddress(host, c.portRpc), KeysAt(repos, host))]
  }

  /** How many of these hosts are remote. */
  function Remotes(c: Config, order: seq<string>): nat {
    if order == [] then 0
    else Remotes(c, order[..|order| - 1]) + if IsLocal(c.host, order[|order| - 1]) then 0 else 1
  }

  /** How many hosts of the order are served before the cap ends the iteration. */
  function Served(c: Config, order: seq<string>): (n: nat)
    ensures n <= |order|
  {
    if order == [] then 0
    else
      var n := Served(c, order[..|order| - 1]);
      if n < |order| - 1 || CapReached(c.maxSearchReqBe, Remotes(c, order[..|order| - 1])) then n else |order|
  }

  function Plans(c: Config, repos: seq<Repo>, served: seq<string>): seq<Plan> {
    if served == [] then []
    else Plans(c, repos, served[..|served| - 1]) + HostPlan(c, repos, served[|served| - 1])
  }

  // ----- the code

  /** The plan of a request. */
  ghost function PlanOf(r: Request): Plan {
    match r
    case Local(keys, _) => if keys == [] then ToLocal("") else ToLocal(keys[0])
    case Remote(addr, keys, _) => ToRemote(addr, keys)
  }

  ghost predicate Carries(requests: seq<Request>, plans: seq<Plan>, meta: MetaMap) {
    && |requests| == |plans|
    && forall i :: 0 <= i < |requests| ==>
         requests[i].meta == meta && PlanOf(requests[i]) == plans[i] && (requests[i].Local? ==> |requests[i].keys| == 1)
  }

  ghost predicate Grouped(hosts: map<string, seq<string>>, repos: seq<Repo>) {
    && hosts.Keys == HostsOf(repos)
    && (forall h :: h in hosts ==> hosts[h] == KeysAt(repos, h) && hosts[h] != [])
    && (forall h :: h !in hosts ==> KeysAt(repos, h) == [])
  }

  lemma GroupedPush(hosts: map<string, seq<string>>, repos: seq<Repo>, repo: Repo, keys: seq<string>)
    requires Grouped(hosts, repos)
    requires keys == (if repo.Host() in hosts then hosts[repo.Host()] else []) + [repo.key]
    ensures Grouped(hosts[repo.Host() := keys], repos + [repo])
  {
    hide HostsOf;
    assert (repos + [repo])[..|repos|] == repos;
    HostsPush(repos, repo);
  }

  /** Groups repository keys by host. */
  method GroupByHost(repos: seq<Repo>) returns (hosts: map<string, seq<string>>)
    ensures Grouped(hosts, repos)
  {
    hide Grouped;
    hosts := map[];
    GroupedNone();
    for i := 0 to |repos|
      invariant Grouped(hosts, repos[..i])
    {
      var host := repos[i].Host();
      ghost var before := hosts;
      if host !in hosts {
        hosts := hosts[host := []];
      }
      GroupedPush(before, repos[..i], repos[i], hosts[host] + [repos[i].key]);
      assert repos[..i + 1] == repos[..i] + [repos[i]];
      assert hosts[host := hosts[host] + [repos[i].key]] == before[host := hosts[host] + [repos[i].key]];
      hosts := hosts[host := hosts[host] + [repos[i].key]];
    }
    assert repos[..|repos|] == repos;
  }

  lemma GroupedNone()
    ensures Grouped(map[], [])
  {
  }

  lemma HostsPush(repos: seq<Repo>, repo: Repo)
    ensures HostsOf(repos + [repo]) == HostsOf(repos) + {repo.Host()}
  {
    var all := repos + [repo];
    forall h ensures h in HostsOf(all) <==> h in HostsOf(repos) || h == repo.Host() {
      if h in HostsOf(repos) {
        var i :| 0 <= i < |repos| && repos[i].Host() == h;
        assert all[i].Host() == h;
      }
      assert all[|repos|] == repo;
    }
  }

  /** Any iteration order. */
  method AnyOrder(s: set<string>) returns (order: seq<string>)
    ensures Enumerates(order, s)
  {
    order := [];
    var todo := s;
    while todo != {}
      invariant todo <= s && Enumerates(order, s - todo)
      decreases todo
    {
      var h :| h in todo;
      order, todo := order + [h], todo - {h};
    }
    assert s - {} == s;
  }

  /** The address is computed here, from the metadata as they are now. */
  method RemoteSearch(keys: seq<string>, meta: MetaMap, port: string) returns (r: Request)
    ensures r == Remote(GetAddress(MetaHost(meta.m), port), keys, meta)
  {
    r := Remote(GetAddress(MetaHost(meta.m), port), keys, meta);
  }

  /** The host an error of a remote request is filed under: the one its metadata name when the request is made. */
  function FiledUnder(r: Request): string
    requires r.Remote?
    reads r.meta
  {
    MetaHost(r.meta.m)
  }

  lemma CarriesPush(requests: seq<Request>, plans: seq<Plan>, meta: MetaMap, r: Request, plan: Plan)
    requires Carries(requests, plans, meta) && r.meta == meta && PlanOf(r) == plan && (r.Local? ==> |r.keys| == 1)
    ensures Carries(requests + [r], plans + [plan], meta)
  {
  }

  /** The inner loop: local requests carry one key each. */
  method QueueLocals(requests0: seq<Request>, keys: seq<string>, meta: MetaMap, ghost plans: seq<Plan>)
    returns (requests: seq<Request>)
    requires Carries(requests0, plans, meta)
    ensures Carries(requests, plans + Locals(keys), meta)
  {
    hide Carries;
    requests := requests0;
    assert plans + Locals([]) == plans;
    for i := 0 to |keys|
      invariant Carries(requests, plans + Locals(keys[..i]), meta)
    {
      CarriesPush(requests, plans + Locals(keys[..i]), meta, Local([keys[i]], meta), ToLocal(keys[i]));
      assert keys[..i + 1][..i] == keys[..i];
      assert plans + Locals(keys[..i]) + [ToLocal(keys[i])] == plans + Locals(keys[..i + 1]);
      requests := requests + [Local([keys[i]], meta)];
    }
    assert keys[..|keys|] == keys;
  }

  /** One pass of the loop over the hosts, below the cap. */
  method QueueHost(c: Config, repos: seq<Repo>, host: string, keys: seq<string>, meta: MetaMap, countBe0: nat,
                   requests0: seq<Request>, ghost plans: seq<Plan>)
    returns (requests: seq<Request>, countBe: nat)
    requires keys == KeysAt(repos, host) && Carries(requests0, plans, meta)
    modifies meta
    ensures Carries(requests, plans + HostPlan(c, repos, host), meta)
    ensures countBe == countBe0 + if IsLocal(c.host, host) then 0 else 1
    ensures meta.m == old(meta.m)["host" := host]
  {
    hide IsLocal, GetAddress;
    meta.SetHost(host);
    countBe := countBe0;
    if IsLocal(c.host, host) {
      requests := QueueLocals(requests0, keys, meta, plans);
    } else {
      countBe := countBe + 1;
      var r := RemoteSearch(keys, meta, c.portRpc);
      CarriesPush(requests0, plans, meta, r, ToRemote(GetAddress(host, c.portRpc), keys));
      requests := requests0 + [r];
    }
  }

  /** Queues the requests of a search. The hosts are taken in some order; the hosts of `served` get theirs,
      and the metadata map all requests share ends up naming the last of them. */
  method GetSearchQueries(c: Config, repos: seq<Repo>, meta: MetaMap)
    returns (requests: seq<Request>, ghost order: seq<string>)
    modifies meta
    ensures Enumerates(order, HostsOf(repos))
    ensures var served := order[..Served(c, order)];
            && Carries(requests, Plans(c, repos, served), meta)
            && meta.m == (if served == [] then old(meta.m) else old(meta.m)["host" := served[|served| - 1]])
  {
    hide Carries, Enumerates, HostsOf, IsLocal, Served, Remotes, Plans, KeysAt, HostPlan;
    requests, order := [], [];
    CarriesNone(meta);
    NoneServed(c, repos);
    if |repos| < 1 {
      return;
    }
    var hosts := GroupByHost(repos);
    var hostOrder := AnyOrder(hosts.Keys);
    order := hostOrder;
    var countBe: nat := 0;
    for i := 0 to |hostOrder|
      invariant Served(c, order[..i]) == i && countBe == Remotes(c, order[..i])
      invariant Carries(requests, Plans(c, repos, order[..i]), meta)
      invariant meta.m == if i == 0 then old(meta.m) else old(meta.m)["host" := order[i - 1]]
    {
      var host := hostOrder[i];
      InOrder(order, hosts.Keys, i);
      if c.maxSearchReqBe > 0 && countBe >= c.maxSearchReqBe {
        ServedStops(c, order, i);
        return;
      }
      ServedStep(c, repos, order, i);
      requests, countBe := QueueHost(c, repos, host, hosts[host], meta, countBe, requests, Plans(c, repos, order[..i]));
    }
    assert order[..|order|] == order;
  }

  lemma ServedStep(c: Config, repos: seq<Repo>, order: seq<string>, i: nat)
    requires i < |order| && Served(c, order[..i]) == i && !CapReached(c.maxSearchReqBe, Remotes(c, order[..i]))
    ensures Served(c, order[..i + 1]) == i + 1
    ensures Remotes(c, order[..i + 1]) == Remotes(c, order[..i]) + if IsLocal(c.host, order[i]) then 0 else 1
    ensures Plans(c, repos, order[..i + 1]) == Plans(c, repos, order[..i]) + HostPlan(c, repos, order[i])
  {
    assert order[..i + 1][..i] == order[..i];
  }

  lemma NoneServed(c: Config, repos: seq<Repo>)
    ensures Served(c, []) == 0 && Remotes(c, []) == 0 && Plans(c, repos, []) == []
    ensures repos == [] ==> Enumerates([], HostsOf(repos))
  {
  }

  lemma InOrder(order: seq<string>, s: set<string>, i: nat)
    requires Enumerates(order, s) && i < |order|
    ensures order[i] in s
  {
  }

  lemma CarriesNone(meta: MetaMap)
    ensures Carries([], [], meta)
  {
  }

  /** Once the cap is reached, no later host is served. */
  lemma {:induction false} ServedStops(c: Config, order: seq<string>, i: nat)
    requires i < |order| && Served(c, order[..i]) == i && CapReached(c.maxSearchReqBe, Remotes(c, order[..i]))
    ensures Served(c, order) == i
    decreases |order|
  {
    if i + 1 < |order| {
      assert order[..|order| - 1][..i] == order[..i];
      ServedStops(c, order[..|order| - 1], i);
    } else {
      assert order[..|order| - 1] == order[..i];
    }
  }
}
