/** Spreading the scanned names over index shards: one producer, one worker per shard, three channels. */
module Shards {

  type Name = string

  const NamesDepth: nat := 100

  datatype Phase = NotStarted | Ready | Holding(name: Name) | Leaving | Done

  datatype Worker = Worker(phase: Phase, numFiles: nat)

  /** `pending` is not yet sent, `sent` is in the channel of names, `out` in the channel of counts. */
  datatype State = State(pending: seq<Name>, sent: seq<Name>, closed: bool,
                         workers: seq<Worker>, shards: seq<seq<Name>>, out: seq<nat>)

  datatype Action =
    | Send
    | Close
    | Start(w: nat)
    | Receive(w: nat)
    | Add(w: nat)
    | Skip(w: nat)
    | Leave(w: nat)
    | Report(w: nat)

  function Init(names: seq<Name>, k: nat): State {
    State(names, [], false, seq(k, _ => Worker(NotStarted, 0)), seq(k, _ => []), [])
  }

  predicate At(s: State, w: nat, phase: Phase) {
    w < |s.workers| && s.workers[w].phase == phase
  }

  /** A step a goroutine can take: a send needs room, a receive something to receive or a closed channel. */
  predicate Enabled(opens: Name -> bool, s: State, a: Action) {
    match a
    case Send => s.pending != [] && |s.sent| < NamesDepth
    case Close => s.pending == [] && !s.closed
    case Start(w) => At(s, w, NotStarted)
    case Receive(w) => At(s, w, Ready) && s.sent != []
    case Add(w) => w < |s.workers| && w < |s.shards| && s.workers[w].phase.Holding? && opens(s.workers[w].phase.name)
    case Skip(w) => w < |s.workers| && s.workers[w].phase.Holding? && !opens(s.workers[w].phase.name)
    case Leave(w) => At(s, w, Ready) && s.sent == [] && s.closed
    case Report(w) => At(s, w, Leaving) && |s.out| < |s.workers|
  }

  function SetWorker(s: State, w: nat, worker: Worker): State
    requires w < |s.workers|
  {
    s.(workers := s.workers[w := worker])
  }

  function Apply(opens: Name -> bool, s: State, a: Action): State
    requires Enabled(opens, s, a)
  {
    match a
    case Send => s.(pending := s.pending[1..], sent := s.sent + [s.pending[0]])
    case Close => s.(closed := true)
    case Start(w) => SetWorker(s, w, s.workers[w].(phase := Ready))
    case Receive(w) => SetWorker(s, w, s.workers[w].(phase := Holding(s.sent[0]))).(sent := s.sent[1..])
    case Add(w) =>
      SetWorker(s, w, Worker(Ready, s.workers[w].numFiles + 1))
      .(shards := s.shards[w := s.shards[w] + [s.workers[w].phase.name]])
    case Skip(w) => SetWorker(s, w, s.workers[w].(phase := Ready))
    case Leave(w) => SetWorker(s, w, s.workers[w].(phase := Leaving))
    case Report(w) => SetWorker(s, w, s.workers[w].(phase := Done)).(out := s.out + [s.workers[w].numFiles])
  }

  /** The actions, in order, can all be taken. */
  predicate Schedule(opens: Name -> bool, s: State, run: seq<Action>)
    decreases run
  {
    run == [] || (Enabled(opens, s, run[0]) && Schedule(opens, Apply(opens, s, run[0]), run[1..]))
  }

  function Exec(opens: Name -> bool, s: State, run: seq<Action>): State
    requires Schedule(opens, s, run)
    decreases run
  {
    if run == [] then s else Exec(opens, Apply(opens, s, run[0]), run[1..])
  }

  ghost predicate Finished(s: State) {
    forall w :: 0 <= w < |s.workers| ==> s.workers[w].phase == Done
  }

  // ----- sums

  ghost function Sum<T>(f: T -> nat, xs: seq<T>): nat {
    if xs == [] then 0 else f(xs[0]) + Sum(f, xs[1..])
  }

  lemma {:induction false} SumUpdate<T>(f: T -> nat, xs: seq<T>, i: nat, x: T)
    requires i < |xs|
    ensures Sum(f, xs[i := x]) + f(xs[i]) == Sum(f, xs) + f(x)
  {
    if i == 0 {
      assert xs[i := x][1..] == xs[1..];
    } else {
      assert xs[i := x][1..] == xs[1..][i - 1 := x];
      SumUpdate(f, xs[1..], i - 1, x);
    }
  }

  lemma {:induction false} SumPush<T>(f: T -> nat, xs: seq<T>, x: T)
    ensures Sum(f, xs + [x]) == Sum(f, xs) + f(x)
  {
    if xs != [] {
      assert (xs + [x])[1..] == xs[1..] + [x];
      SumPush(f, xs[1..], x);
    } else {
      assert xs + [x] == [x] && [x][1..] == [];
    }
  }

  ghost function Union<T>(f: T -> multiset<Name>, xs: seq<T>): multiset<Name> {
    if xs == [] then multiset{} else f(xs[0]) + Union(f, xs[1..])
  }

  lemma {:induction false} UnionUpdate<T>(f: T -> multiset<Name>, xs: seq<T>, i: nat, x: T)
    requires i < |xs|
    ensures Union(f, xs[i := x]) + f(xs[i]) == Union(f, xs) + f(x)
  {
    if i == 0 {
      assert xs[i := x][1..] == xs[1..];
    } else {
      assert xs[i := x][1..] == xs[1..][i - 1 := x];
      UnionUpdate(f, xs[1..], i - 1, x);
      var a, b := Union(f, xs[1..][i - 1 := x]), Union(f, xs[1..]);
      assert f(xs[0]) + a + f(xs[i]) == f(xs[0]) + (a + f(xs[i])) == f(xs[0]) + (b + f(x)) == f(xs[0]) + b + f(x);
    }
  }

  lemma {:induction false} UnionPush<T>(f: T -> multiset<Name>, xs: seq<T>, x: T)
    ensures Union(f, xs + [x]) == Union(f, xs) + f(x)
  {
    if xs != [] {
      assert (xs + [x])[1..] == xs[1..] + [x];
      UnionPush(f, xs[1..], x);
    } else {
      assert xs + [x] == [x] && [x][1..] == [];
    }
  }

  // ----- what is conserved

  /** The name itself, if it can be opened. */
  ghost function IfOpens(opens: Name -> bool): Name -> multiset<Name> {
    (name: Name) => if opens(name) then multiset{name} else multiset{}
  }

  /** The names that can be opened, with multiplicity. */
  ghost function OpenNames(opens: Name -> bool, names: seq<Name>): multiset<Name> {
    Union(IfOpens(opens), names)
  }

  ghost function Held(opens: Name -> bool): Worker -> multiset<Name> {
    (worker: Worker) => if worker.phase.Holding? then IfOpens(opens)(worker.phase.name) else multiset{}
  }

  ghost function Shard(): seq<Name> -> multiset<Name> {
    (shard: seq<Name>) => multiset(shard)
  }

  /** The contents of all shards together. */
  ghost function Indexed(s: State): multiset<Name> {
    Union(Shard(), s.shards)
  }

  ghost function IsDone(): Worker -> nat {
    (worker: Worker) => if worker.phase == Done then 1 else 0
  }

  ghost function DoneFiles(): Worker -> nat {
    (worker: Worker) => if worker.phase == Done then worker.numFiles else 0
  }

  ghost function Count(): nat -> nat {
    (n: nat) => n
  }

  /** Every openable name is in one place, as often as it was scanned. */
  ghost predicate Conserved(opens: Name -> bool, names: seq<Name>, s: State) {
    forall name :: OpenNames(opens, names)[name]
      == OpenNames(opens, s.pending)[name] + OpenNames(opens, s.sent)[name]
       + Union(Held(opens), s.workers)[name] + Indexed(s)[name]
  }

  /** Counts agree with contents, and a worker leaves only when there is nothing left to receive. */
  ghost predicate Ordered(s: State) {
    && |s.shards| == |s.workers|
    && (forall w :: 0 <= w < |s.workers| ==> s.workers[w].numFiles == |s.shards[w]|)
    && (s.closed ==> s.pending == [])
    && (forall w :: 0 <= w < |s.workers| && (s.workers[w].phase == Leaving || s.workers[w].phase == Done) ==>
          s.closed && s.sent == [])
  }

  /** The channel of counts holds one count for each worker that is done. */
  ghost predicate Reported(s: State) {
    && |s.out| == Sum(IsDone(), s.workers)
    && Sum(Count(), s.out) == Sum(DoneFiles(), s.workers)
  }

  ghost predicate Inv(opens: Name -> bool, names: seq<Name>, s: State) {
    Conserved(opens, names, s) && Ordered(s) && Reported(s)
  }

  lemma {:induction false} SumZero<T>(f: T -> nat, xs: seq<T>)
    requires forall i :: 0 <= i < |xs| ==> f(xs[i]) == 0
    ensures Sum(f, xs) == 0
  {
    if xs != [] {
      SumZero(f, xs[1..]);
    }
  }

  lemma {:induction false} UnionNone<T>(f: T -> multiset<Name>, xs: seq<T>)
    requires forall i :: 0 <= i < |xs| ==> f(xs[i]) == multiset{}
    ensures Union(f, xs) == multiset{}
  {
    if xs != [] {
      UnionNone(f, xs[1..]);
    }
  }

  lemma InitInv(opens: Name -> bool, names: seq<Name>, k: nat)
    ensures Inv(opens, names, Init(names, k))
  {
    var s := Init(names, k);
    UnionNone(Held(opens), s.workers);
    UnionNone(Shard(), s.shards);
    SumZero(IsDone(), s.workers);
    SumZero(DoneFiles(), s.workers);
  }

  lemma HeldStep(opens: Name -> bool, s: State, w: nat, worker: Worker)
    requires w < |s.workers|
    ensures forall name :: Union(Held(opens), s.workers[w := worker])[name] + Held(opens)(s.workers[w])[name]
                        == Union(Held(opens), s.workers)[name] + Held(opens)(worker)[name]
  {
    UnionUpdate(Held(opens), s.workers, w, worker);
    var workers := s.workers[w := worker];
    forall name
      ensures Union(Held(opens), workers)[name] + Held(opens)(s.workers[w])[name]
           == Union(Held(opens), s.workers)[name] + Held(opens)(worker)[name]
    {
      assert (Union(Held(opens), workers) + Held(opens)(s.workers[w]))[name]
          == (Union(Held(opens), s.workers) + Held(opens)(worker))[name];
    }
  }

  /** A worker that holds nothing before and after a step changes nothing that is conserved. */
  lemma EmptyHanded(opens: Name -> bool, names: seq<Name>, s: State, w: nat, worker: Worker)
    requires Conserved(opens, names, s) && w < |s.workers|
    requires Held(opens)(s.workers[w]) == multiset{} == Held(opens)(worker)
    ensures Conserved(opens, names, SetWorker(s, w, worker))
  {
    hide Union;
    HeldStep(opens, s, w, worker);
  }

  lemma SendConserves(opens: Name -> bool, names: seq<Name>, s: State)
    requires Conserved(opens, names, s) && Enabled(opens, s, Send)
    ensures Conserved(opens, names, Apply(opens, s, Send))
  {
    hide Union;
    UnionPush(IfOpens(opens), s.sent, s.pending[0]);
    UnionFirst(IfOpens(opens), s.pending);
  }

  lemma ReceiveConserves(opens: Name -> bool, names: seq<Name>, s: State, w: nat)
    requires Conserved(opens, names, s) && Enabled(opens, s, Receive(w))
    ensures Conserved(opens, names, Apply(opens, s, Receive(w)))
  {
    hide Union;
    UnionFirst(IfOpens(opens), s.sent);
    HeldStep(opens, s, w, s.workers[w].(phase := Holding(s.sent[0])));
  }

  lemma IndexedStep(s: State, w: nat, name: Name, shards: seq<seq<Name>>)
    requires w < |s.shards| && shards == s.shards[w := s.shards[w] + [name]]
    ensures Union(Shard(), shards) == Indexed(s) + multiset{name}
  {
    var shard := s.shards[w];
    UnionUpdate(Shard(), s.shards, w, shard + [name]);
    assert Union(Shard(), shards) + multiset(shard) == Indexed(s) + (multiset(shard) + multiset{name});
    assert Union(Shard(), shards) == (Union(Shard(), shards) + multiset(shard)) - multiset(shard);
  }

  lemma AddConserves(opens: Name -> bool, names: seq<Name>, s: State, w: nat)
    requires Conserved(opens, names, s) && Enabled(opens, s, Add(w))
    ensures Conserved(opens, names, Apply(opens, s, Add(w)))
  {
    hide Union;
    var name := s.workers[w].phase.name;
    HeldStep(opens, s, w, Worker(Ready, s.workers[w].numFiles + 1));
    var t := Apply(opens, s, Add(w));
    assert Indexed(t) == Indexed(s) + multiset{name} by {
      IndexedStep(s, w, name, s.shards[w := s.shards[w] + [name]]);
    }
    assert Held(opens)(s.workers[w]) == multiset{name} && Held(opens)(t.workers[w]) == multiset{};
    assert t.pending == s.pending && t.sent == s.sent;
  }

  lemma StepConserves(opens: Name -> bool, names: seq<Name>, s: State, a: Action)
    requires Conserved(opens, names, s) && Enabled(opens, s, a)
    ensures Conserved(opens, names, Apply(opens, s, a))
  {
    match a
    case Send => SendConserves(opens, names, s);
    case Close =>
    case Receive(w) => ReceiveConserves(opens, names, s, w);
    case Add(w) => AddConserves(opens, names, s, w);
    case Start(w) => EmptyHanded(opens, names, s, w, s.workers[w].(phase := Ready));
    case Skip(w) =>
      assert IfOpens(opens)(s.workers[w].phase.name) == multiset{};
      EmptyHanded(opens, names, s, w, s.workers[w].(phase := Ready));
    case Leave(w) => EmptyHanded(opens, names, s, w, s.workers[w].(phase := Leaving));
    case Report(w) =>
      EmptyHanded(opens, names, s, w, s.workers[w].(phase := Done));
      assert Apply(opens, s, a).shards == s.shards;
  }

  lemma StepReports(opens: Name -> bool, s: State, a: Action)
    requires Reported(s) && Enabled(opens, s, a)
    ensures Reported(Apply(opens, s, a))
  {
    hide Union, Sum;
    match a
    case Send =>
    case Close =>
    case Start(w) => WorkerStep(opens, s, w, s.workers[w].(phase := Ready));
    case Receive(w) => WorkerStep(opens, s, w, s.workers[w].(phase := Holding(s.sent[0])));
    case Add(w) => WorkerStep(opens, s, w, Worker(Ready, s.workers[w].numFiles + 1));
    case Skip(w) => WorkerStep(opens, s, w, s.workers[w].(phase := Ready));
    case Leave(w) => WorkerStep(opens, s, w, s.workers[w].(phase := Leaving));
    case Report(w) =>
      WorkerStep(opens, s, w, s.workers[w].(phase := Done));
      SumPush(Count(), s.out, s.workers[w].numFiles);
  }

  lemma StepOrdered(opens: Name -> bool, s: State, a: Action)
    requires Ordered(s) && Enabled(opens, s, a)
    ensures Ordered(Apply(opens, s, a))
  {
    var t := Apply(opens, s, a);
    forall w | 0 <= w < |t.workers|
      ensures t.workers[w].numFiles == |t.shards[w]|
      ensures t.workers[w].phase == Leaving || t.workers[w].phase == Done ==> t.closed && t.sent == []
    {
      assert s.workers[w].numFiles == |s.shards[w]|;
    }
  }

  /** Every step keeps the invariant. */
  lemma StepInv(opens: Name -> bool, names: seq<Name>, s: State, a: Action)
    requires Inv(opens, names, s) && Enabled(opens, s, a)
    ensures Inv(opens, names, Apply(opens, s, a))
  {
    hide Conserved, Ordered, Reported, Apply;
    StepConserves(opens, names, s, a);
    StepOrdered(opens, s, a);
    StepReports(opens, s, a);
  }

  lemma UnionFirst<T>(f: T -> multiset<Name>, xs: seq<T>)
    requires xs != []
    ensures Union(f, xs) == f(xs[0]) + Union(f, xs[1..])
  {
  }

  lemma WorkerStep(opens: Name -> bool, s: State, w: nat, worker: Worker)
    requires w < |s.workers|
    ensures var workers := s.workers[w := worker];
            && Union(Held(opens), workers) + Held(opens)(s.workers[w])
               == Union(Held(opens), s.workers) + Held(opens)(worker)
            && Sum(IsDone(), workers) + IsDone()(s.workers[w]) == Sum(IsDone(), s.workers) + IsDone()(worker)
            && Sum(DoneFiles(), workers) + DoneFiles()(s.workers[w])
               == Sum(DoneFiles(), s.workers) + DoneFiles()(worker)
  {
    UnionUpdate(Held(opens), s.workers, w, worker);
    SumUpdate(IsDone(), s.workers, w, worker);
    SumUpdate(DoneFiles(), s.workers, w, worker);
  }

  /** So the invariant holds after every schedule, whatever the interleaving. */
  lemma {:induction false} RunInv(opens: Name -> bool, names: seq<Name>, s: State, run: seq<Action>)
    requires Inv(opens, names, s) && Schedule(opens, s, run)
    ensures Inv(opens, names, Exec(opens, s, run))
    ensures |Exec(opens, s, run).workers| == |s.workers|
    decreases run
  {
    hide Inv;
    if run != [] {
      StepInv(opens, names, s, run[0]);
      RunInv(opens, names, Apply(opens, s, run[0]), run[1..]);
    }
  }

  // ----- no deadlock, no endless run

  lemma {:induction false} SumBound<T>(f: T -> nat, xs: seq<T>, i: nat)
    requires i < |xs| && f(xs[i]) == 0 && forall j :: 0 <= j < |xs| ==> f(xs[j]) <= 1
    ensures Sum(f, xs) < |xs|
    decreases xs
  {
    if i == 0 {
      SumAtMost(f, xs[1..]);
    } else {
      SumBound(f, xs[1..], i - 1);
    }
  }

  lemma {:induction false} SumAtMost<T>(f: T -> nat, xs: seq<T>)
    requires forall j :: 0 <= j < |xs| ==> f(xs[j]) <= 1
    ensures Sum(f, xs) <= |xs|
  {
    if xs != [] {
      SumAtMost(f, xs[1..]);
    }
  }

  /** A worker that wants to report its count always finds room: it never blocks on the channel of counts. */
  lemma ReportNeverBlocks(opens: Name -> bool, names: seq<Name>, s: State, w: nat)
    requires Inv(opens, names, s) && At(s, w, Leaving)
    ensures Enabled(opens, s, Report(w))
  {
    SumBound(IsDone(), s.workers, w);
  }

  /** As long as a worker is not done, some step can be taken. */
  lemma Progress(opens: Name -> bool, names: seq<Name>, s: State) returns (a: Action)
    requires Inv(opens, names, s) && !Finished(s)
    ensures Enabled(opens, s, a)
  {
    var w: nat :| w < |s.workers| && s.workers[w].phase != Done;
    match s.workers[w].phase
    case NotStarted => a := Start(w);
    case Holding(name) => a := if opens(name) then Add(w) else Skip(w);
    case Leaving =>
      ReportNeverBlocks(opens, names, s, w);
      a := Report(w);
    case Ready =>
      a := if s.sent != [] then Receive(w)
           else if s.closed then Leave(w)
           else if s.pending == [] then Close
           else Send;
  }

  ghost function Work(): Worker -> nat {
    (worker: Worker) => match worker.phase
      case NotStarted => 3
      case Ready => 2
      case Holding(_) => 4
      case Leaving => 1
      case Done => 0
  }

  ghost function Remaining(s: State): nat {
    4 * |s.pending| + 3 * |s.sent| + (if s.closed then 0 else 1) + Sum(Work(), s.workers)
  }

  lemma StepWorks(opens: Name -> bool, s: State, a: Action)
    requires Enabled(opens, s, a)
    ensures Remaining(Apply(opens, s, a)) < Remaining(s)
  {
    hide Sum;
    match a
    case Send =>
    case Close =>
    case Start(w) => SumUpdate(Work(), s.workers, w, s.workers[w].(phase := Ready));
    case Receive(w) => SumUpdate(Work(), s.workers, w, s.workers[w].(phase := Holding(s.sent[0])));
    case Add(w) => SumUpdate(Work(), s.workers, w, Worker(Ready, s.workers[w].numFiles + 1));
    case Skip(w) => SumUpdate(Work(), s.workers, w, s.workers[w].(phase := Ready));
    case Leave(w) => SumUpdate(Work(), s.workers, w, s.workers[w].(phase := Leaving));
    case Report(w) => SumUpdate(Work(), s.workers, w, s.workers[w].(phase := Done));
  }

  lemma {:induction false} RunWorks(opens: Name -> bool, s: State, run: seq<Action>)
    requires Schedule(opens, s, run)
    ensures |run| + Remaining(Exec(opens, s, run)) <= Remaining(s)
    decreases run
  {
    hide Apply, Enabled, Remaining;
    if run != [] {
      StepWorks(opens, s, run[0]);
      RunWorks(opens, Apply(opens, s, run[0]), run[1..]);
    }
  }

  lemma {:induction false} WorkAtStart(k: nat)
    ensures Sum(Work(), Init([], k).workers) == 3 * k
  {
    if k != 0 {
      assert Init([], k).workers[1..] == Init([], k - 1).workers;
      WorkAtStart(k - 1);
    }
  }

  /** Every run is finite, with a bound, and a run that cannot go on has every worker done. */
  lemma RunsEnd(opens: Name -> bool, names: seq<Name>, k: nat, run: seq<Action>)
    requires Schedule(opens, Init(names, k), run)
    ensures |run| <= 4 * |names| + 3 * k + 1
    ensures var s := Exec(opens, Init(names, k), run);
            Finished(s) || exists a :: Enabled(opens, s, a)
  {
    RunWorks(opens, Init(names, k), run);
    WorkAtStart(k);
    assert Init(names, k).workers == Init([], k).workers;
    InitInv(opens, names, k);
    RunInv(opens, names, Init(names, k), run);
    var s := Exec(opens, Init(names, k), run);
    if !Finished(s) {
      var a := Progress(opens, names, s);
    }
  }

  // ----- the end

  lemma {:induction false} SumSame<T>(f: T -> nat, xs: seq<T>, n: nat)
    requires forall j :: 0 <= j < |xs| ==> f(xs[j]) == n
    ensures Sum(f, xs) == n * |xs|
  {
    if xs != [] {
      SumSame(f, xs[1..], n);
    }
  }

  lemma {:induction false} UnionSize(xs: seq<seq<Name>>, workers: seq<Worker>)
    requires |xs| == |workers|
    requires forall w :: 0 <= w < |xs| ==> workers[w].phase == Done && workers[w].numFiles == |xs[w]|
    ensures |Union(Shard(), xs)| == Sum(DoneFiles(), workers)
    decreases xs
  {
    if xs != [] {
      UnionSize(xs[1..], workers[1..]);
      assert |multiset(xs[0])| == |xs[0]|;
    }
  }

  /** When every worker is done, the shards together hold each openable name exactly as often as it was
      scanned, and the counts add up to their number. */
  lemma AllIndexed(opens: Name -> bool, names: seq<Name>, k: nat, run: seq<Action>)
    requires 0 < k && Schedule(opens, Init(names, k), run)
    requires Finished(Exec(opens, Init(names, k), run))
    ensures var s := Exec(opens, Init(names, k), run);
            && Indexed(s) == OpenNames(opens, names)
            && Sum(Count(), s.out) == |OpenNames(opens, names)| && |s.out| == k
  {
    hide Union, Sum;
    var s := Exec(opens, Init(names, k), run);
    InitInv(opens, names, k);
    RunInv(opens, names, Init(names, k), run);
    assert s.workers[0].phase == Done;
    assert s.pending == [] && s.sent == [];
    UnionNone(IfOpens(opens), s.pending);
    UnionNone(Held(opens), s.workers);
    assert Indexed(s) == OpenNames(opens, names);
    UnionSize(s.shards, s.workers);
    SumSame(IsDone(), s.workers, 1);
  }

  /** How often a name is indexed: as often as it was scanned, if it can be opened, and else not at all. */
  lemma {:induction false} OpenNamesCount(opens: Name -> bool, names: seq<Name>, name: Name)
    ensures OpenNames(opens, names)[name] == if opens(name) then multiset(names)[name] else 0
  {
    if names != [] {
      OpenNamesCount(opens, names[1..], name);
      assert names == [names[0]] + names[1..];
      assert IfOpens(opens)(names[0])[name] == if names[0] == name && opens(name) then 1 else 0;
    }
  }
}
