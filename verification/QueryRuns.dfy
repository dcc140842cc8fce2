/** Requests that fail while others are still being queued: where their errors are filed. */
module QueryRuns {
  import opened Repos
  import opened Queries
  import opened QueryTheorems

  /** The metadata all requests share, how many of the hosts served it has named, for how many the requests are
      queued, and the host under which the error of each host's request was filed. */
  datatype Queueing = Queueing(meta: Meta, named: nat, queued: nat, filed: map<nat, string>)

  /** The next host is named in the metadata, its requests are queued, or the remote request of a host fails. */
  datatype Action = Name | Queue | Fail(i: nat)

  predicate Enabled(c: Config, served: seq<string>, s: Queueing, a: Action) {
    match a
    case Name => s.named == s.queued < |served|
    case Queue => s.queued < s.named
    case Fail(i) => i < s.queued && i < |served| && !IsLocal(c.host, served[i]) && i !in s.filed
  }

  function Step(served: seq<string>, s: Queueing, a: Action): Queueing {
    match a
    case Name =>
      if s.named < |served| then s.(meta := s.meta["host" := served[s.named]], named := s.named + 1) else s
    case Queue => s.(queued := s.named)
    case Fail(i) => s.(filed := s.filed[i := MetaHost(s.meta)])
  }

  function Start(meta: Meta): Queueing {
    Queueing(meta, 0, 0, map[])
  }

  function After(served: seq<string>, s: Queueing, run: seq<Action>): Queueing {
    if run == [] then s else Step(served, After(served, s, run[..|run| - 1]), run[|run| - 1])
  }

  ghost predicate Possible(c: Config, served: seq<string>, s: Queueing, run: seq<Action>) {
    run == [] || (
      && Possible(c, served, s, run[..|run| - 1])
      && Enabled(c, served, After(served, s, run[..|run| - 1]), run[|run| - 1]))
  }

  /** Every error is filed under the host whose request failed. */
  predicate FiledRight(served: seq<string>, s: Queueing) {
    forall i :: i in s.filed ==> i < |served| && s.filed[i] == served[i]
  }

  ghost predicate Inv(served: seq<string>, s: Queueing) {
    && s.queued <= s.named <= |served| && s.named <= s.queued + 1
    && (s.named > 0 ==> MetaHost(s.meta) == served[s.named - 1])
  }

  lemma StepInv(c: Config, served: seq<string>, s: Queueing, a: Action)
    requires Inv(served, s) && Enabled(c, served, s, a)
    ensures Inv(served, Step(served, s, a))
  {
  }

  lemma {:induction false} RunInv(c: Config, served: seq<string>, meta: Meta, run: seq<Action>)
    requires Possible(c, served, Start(meta), run)
    ensures Inv(served, After(served, Start(meta), run))
  {
    hide Inv, Enabled, Step;
    if run == [] {
      StartInv(served, meta);
    } else {
      var init := run[..|run| - 1];
      RunInv(c, served, meta, init);
      StepInv(c, served, After(served, Start(meta), init), run[|run| - 1]);
    }
  }

  lemma StartInv(served: seq<string>, meta: Meta)
    ensures Inv(served, Start(meta))
  {
  }

  /** In every run the error of a request is filed under its host exactly if it fails before the next host is
      named. */
  lemma FailFilesRightIff(c: Config, served: seq<string>, meta: Meta, run: seq<Action>, i: nat)
    requires Differ(served) && Possible(c, served, Start(meta), run + [Fail(i)])
    ensures i < |served| && i in After(served, Start(meta), run + [Fail(i)]).filed
    ensures After(served, Start(meta), run + [Fail(i)]).filed[i] == served[i]
            <==> After(served, Start(meta), run).named == i + 1
  {
    assert (run + [Fail(i)])[..|run + [Fail(i)]| - 1] == run;
    RunInv(c, served, meta, run);
  }

  // ----- one order of the hosts

  lemma {:induction false} LocalsFileRight(c: Config, served: seq<string>, meta: Meta, run: seq<Action>)
    requires forall i :: 0 <= i < |served| - 1 ==> IsLocal(c.host, served[i])
    requires Possible(c, served, Start(meta), run)
    ensures FiledRight(served, After(served, Start(meta), run))
  {
    hide IsLocal;
    if run != [] {
      var init := run[..|run| - 1];
      LocalsFileRight(c, served, meta, init);
      RunInv(c, served, meta, init);
    }
  }

  /** Every host named and its requests queued, one after the other. */
  function QueueAll(n: nat): seq<Action> {
    if n == 0 then [] else QueueAll(n - 1) + [Name] + [Queue]
  }

  lemma RunPush(c: Config, served: seq<string>, s: Queueing, run: seq<Action>, a: Action)
    ensures After(served, s, run + [a]) == Step(served, After(served, s, run), a)
    ensures Possible(c, served, s, run + [a]) <==>
            Possible(c, served, s, run) && Enabled(c, served, After(served, s, run), a)
  {
    assert (run + [a])[..|run + [a]| - 1] == run;
  }

  lemma {:induction false} AllQueued(c: Config, served: seq<string>, meta: Meta, n: nat)
    requires n <= |served|
    ensures Possible(c, served, Start(meta), QueueAll(n))
    ensures var s := After(served, Start(meta), QueueAll(n));
            && s.named == n && s.queued == n && s.filed == map[]
            && s.meta == if n == 0 then meta else meta["host" := served[n - 1]]
  {
    hide After, Possible;
    if n == 0 {
      NoSteps(c, served, meta);
    } else {
      AllQueued(c, served, meta, n - 1);
      RunPush(c, served, Start(meta), QueueAll(n - 1), Name);
      RunPush(c, served, Start(meta), QueueAll(n - 1) + [Name], Queue);
    }
  }

  lemma NoSteps(c: Config, served: seq<string>, meta: Meta)
    ensures Possible(c, served, Start(meta), []) && After(served, Start(meta), []) == Start(meta)
  {
  }

  /** The request of any remote host can fail as soon as it is queued, and is filed right then. */
  lemma FailsInTime(c: Config, served: seq<string>, meta: Meta, i: nat) returns (run: seq<Action>)
    requires i < |served| && !IsLocal(c.host, served[i])
    ensures Possible(c, served, Start(meta), run)
    ensures After(served, Start(meta), run).filed == map[i := served[i]]
  {
    hide After, Possible, IsLocal;
    AllQueued(c, served, meta, i + 1);
    RunPush(c, served, Start(meta), QueueAll(i + 1), Fail(i));
    run := QueueAll(i + 1) + [Fail(i)];
  }

  /** If a remote host is not the last, a run in which its request fails after all hosts are named. */
  lemma RemoteMisfiled(c: Config, served: seq<string>, meta: Meta, i: nat) returns (run: seq<Action>)
    requires Differ(served) && i < |served| - 1 && !IsLocal(c.host, served[i])
    ensures Possible(c, served, Start(meta), run) && !FiledRight(served, After(served, Start(meta), run))
  {
    hide After, Possible, IsLocal;
    var all := QueueAll(|served|);
    AllQueued(c, served, meta, |served|);
    RunPush(c, served, Start(meta), all, Fail(i));
    run := all + [Fail(i)];
    FailFilesRightIff(c, served, meta, all, i);
  }

  /** Every run files every error under the host that was asked. */
  ghost predicate RunsFileRight(c: Config, served: seq<string>, meta: Meta) {
    forall run :: Possible(c, served, Start(meta), run) ==> FiledRight(served, After(served, Start(meta), run))
  }

  /** So it is exactly if every host before the last one served is local. */
  lemma RunsFileRightIff(c: Config, served: seq<string>, meta: Meta)
    requires Differ(served)
    ensures RunsFileRight(c, served, meta) <==> forall i :: 0 <= i < |served| - 1 ==> IsLocal(c.host, served[i])
  {
    hide After, Possible, IsLocal, FiledRight, Start;
    if forall i :: 0 <= i < |served| - 1 ==> IsLocal(c.host, served[i]) {
      forall run | Possible(c, served, Start(meta), run)
        ensures FiledRight(served, After(served, Start(meta), run))
      {
        LocalsFileRight(c, served, meta, run);
      }
    } else {
      var i :| 0 <= i < |served| - 1 && !IsLocal(c.host, served[i]);
      var run := RemoteMisfiled(c, served, meta, i);
    }
  }

  // ----- all orders

  /** Whatever the order of the hosts, and however requests and queueing interleave, every error of a remote request
      is filed under the host it was sent to, exactly if there is no remote host, or one host only, or a cap of
      one. */
  lemma AllOrdersFileRightIff(c: Config, repos: seq<Repo>, meta: Meta)
    ensures (forall order :: Enumerates(order, HostsOf(repos)) ==>
               RunsFileRight(c, order[..Served(c, order)], meta))
            <==> FilesRightAlways(c, HostsOf(repos))
  {
    hide FilesRight, HostsOf, FilesRightAlways, IsLocal, RunsFileRight, Served;
    forall order | Enumerates(order, HostsOf(repos))
      ensures RunsFileRight(c, order[..Served(c, order)], meta) <==> FilesRight(c, repos, order[..Served(c, order)])
    {
      PrefixDiffers(order, Served(c, order));
      RunsFileRightIff(c, order[..Served(c, order)], meta);
      FilesRightIff(c, repos, order[..Served(c, order)]);
    }
    if FilesRightAlways(c, HostsOf(repos)) {
      forall order | Enumerates(order, HostsOf(repos))
        ensures RunsFileRight(c, order[..Served(c, order)], meta)
      {
        AlwaysFiledRight(c, repos, order);
      }
    } else {
      var order := SomeOrderMisfiles(c, repos);
    }
  }
}
