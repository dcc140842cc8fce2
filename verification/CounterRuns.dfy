/** What becomes of the calls made to the counters: in every run none is lost, and each can be completed. */
module CounterRuns {
  import opened Counters

  // ----- runs, step by step from the end

  lemma {:induction false} SplitRun(s: State, run: seq<Action>, p: nat)
    requires Schedule(s, run) && p <= |run|
    ensures Schedule(s, run[..p]) && Schedule(Exec(s, run[..p]), run[p..])
    ensures Exec(Exec(s, run[..p]), run[p..]) == Exec(s, run)
    decreases run
  {
    hide Enabled, Step;
    if p == 0 {
      assert run[0..] == run;
    } else {
      SplitRun(Step(s, run[0]), run[1..], p - 1);
      assert run[..p][1..] == run[1..][..p - 1] && run[1..][p - 1..] == run[p..];
    }
  }

  lemma OneStep(s: State, a: Action)
    ensures Schedule(s, [a]) <==> Enabled(s, a)
    ensures Enabled(s, a) ==> Exec(s, [a]) == Step(s, a)
  {
    hide Enabled, Step;
    assert [a][1..] == [];
  }

  lemma LastStep(s: State, run: seq<Action>)
    requires run != [] && Schedule(s, run)
    ensures var init, a := run[..|run| - 1], run[|run| - 1];
            Schedule(s, init) && Enabled(Exec(s, init), a) && Exec(s, run) == Step(Exec(s, init), a)
  {
    hide Enabled, Step, Exec, Schedule;
    SplitRun(s, run, |run| - 1);
    assert run[|run| - 1..] == [run[|run| - 1]];
    OneStep(Exec(s, run[..|run| - 1]), run[|run| - 1]);
  }

  lemma {:induction false} Continues(s: State, a: seq<Action>, b: seq<Action>)
    requires Schedule(s, a) && Schedule(Exec(s, a), b)
    ensures Schedule(s, a + b) && Exec(s, a + b) == Exec(Exec(s, a), b)
    decreases a
  {
    hide Enabled, Step;
    if a == [] {
      assert a + b == b;
    } else {
      assert (a + b)[1..] == a[1..] + b;
      Continues(Step(s, a[0]), a[1..], b);
    }
  }

  // ----- increments

  /** The increment a step calls for: of something, under a key. */
  ghost function CalledIn(a: Action): multiset<Increment> {
    if a.CallInc? && a.inc.key != "" && a.inc.value > 0 then multiset{a.inc} else multiset{}
  }

  /** The increments called for in a run. */
  ghost function CalledFor(run: seq<Action>): multiset<Increment> {
    if run == [] then multiset{}
    else CalledFor(run[..|run| - 1]) + CalledIn(run[|run| - 1])
  }

  ghost function Sending(client: Client): multiset<Increment> {
    if client.Incrementing? then multiset{client.inc} else multiset{}
  }

  /** What the clients have under way. */
  ghost function UnderWay<T>(f: Client -> multiset<T>, clients: seq<Client>): multiset<T> {
    if clients == [] then multiset{} else UnderWay(f, clients[1..]) + f(clients[0])
  }

  lemma {:induction false} UnderWayUpdate<T>(f: Client -> multiset<T>, clients: seq<Client>, c: nat, client: Client,
                                             x: T)
    requires c < |clients|
    ensures UnderWay(f, clients[c := client])[x] + f(clients[c])[x] == UnderWay(f, clients)[x] + f(client)[x]
  {
    if c == 0 {
      assert clients[c := client][1..] == clients[1..];
    } else {
      assert clients[c := client][1..] == clients[1..][c - 1 := client];
      UnderWayUpdate(f, clients[1..], c - 1, client, x);
    }
  }

  lemma {:induction false} IdleNothing<T>(f: Client -> multiset<T>, clients: seq<Client>)
    requires f(Idle) == multiset{} && forall c :: 0 <= c < |clients| ==> clients[c] == Idle
    ensures UnderWay(f, clients) == multiset{}
  {
    if clients != [] {
      IdleNothing(f, clients[1..]);
    }
  }

  /** The increments clients are still sending. */
  ghost function BeingSent(clients: seq<Client>): multiset<Increment> {
    UnderWay(Sending, clients)
  }

  /** The client a step changes, if it changes one. */
  function Mover(s: State, a: Action): nat {
    match a
    case CallInc(c, _) => c
    case CallGet(c, _) => c
    case CallGetAll(c) => c
    case SendGet(c) => c
    case SendGetAll(c) => c
    case TakeInc(c) => c
    case Reply => if s.loop.ReplyingOne? || s.loop.ReplyingAll? then s.loop.client else 0
    case _ => 0
  }

  lemma StepMoves(s: State, a: Action)
    requires Enabled(s, a)
    ensures var c, s' := Mover(s, a), Step(s, a);
            |s'.clients| == |s.clients| &&
            if c < |s.clients| then s'.clients == s.clients[c := s'.clients[c]] else s'.clients == s.clients
  {
    hide Value, Bump;
  }

  lemma StepAccepts(s: State, a: Action, inc: Increment)
    requires Enabled(s, a)
    ensures a.TakeInc? ==>
              multiset(Step(s, a).accepted)[inc] == multiset(s.accepted)[inc] + Sending(s.clients[a.c])[inc]
    ensures !a.TakeInc? ==> Step(s, a).accepted == s.accepted
  {
    hide Value, Bump;
  }

  lemma MoverSends(s: State, a: Action, inc: Increment)
    requires Enabled(s, a) && Mover(s, a) < |s.clients|
    ensures var c := Mover(s, a); var before, after := Sending(s.clients[c])[inc], Sending(Step(s, a).clients[c])[inc];
            after == if a.TakeInc? then 0 else before + CalledIn(a)[inc]
  {
    hide Value, Bump;
  }

  lemma NoMover(s: State, a: Action)
    requires Enabled(s, a) && Mover(s, a) >= |s.clients|
    ensures Step(s, a).clients == s.clients && CalledIn(a) == multiset{} && !a.TakeInc?
  {
    hide Value, Bump;
  }

  /** One step: the increment it calls for, if any, is being sent; the one it accepts no longer is. */
  lemma StepSends(s: State, a: Action, inc: Increment)
    requires Enabled(s, a)
    ensures var s' := Step(s, a);
            multiset(s'.accepted)[inc] + BeingSent(s'.clients)[inc]
            == multiset(s.accepted)[inc] + BeingSent(s.clients)[inc] + CalledIn(a)[inc]
  {
    hide Enabled, Step, Sending, UnderWay;
    var c, s' := Mover(s, a), Step(s, a);
    StepMoves(s, a);
    StepAccepts(s, a, inc);
    if c < |s.clients| {
      MoverSends(s, a, inc);
      UnderWayUpdate(Sending, s.clients, c, s'.clients[c], inc);
      assert s.clients[c := s.clients[c]] == s.clients;
    } else {
      NoMover(s, a);
    }
  }

  /** In every run, the increments called for are the accepted ones and those still being sent: none is lost, none
      comes twice or from nowhere. */
  lemma {:induction false} IncrementsArrive(n: nat, run: seq<Action>, inc: Increment)
    requires Schedule(Init(n), run)
    ensures var s := Exec(Init(n), run);
            CalledFor(run)[inc] == multiset(s.accepted)[inc] + BeingSent(s.clients)[inc]
  {
    hide Enabled, Step, Schedule, UnderWay;
    if run == [] {
      IdleNothing(Sending, Init(n).clients);
    } else {
      LastStep(Init(n), run);
      var init := run[..|run| - 1];
      IncrementsArrive(n, init, inc);
      StepSends(Exec(Init(n), init), run[|run| - 1], inc);
    }
  }

  // ----- reads

  /** A read called for, and how many increments had been accepted then. */
  datatype Call = OneCall(key: string, issued: nat) | AllCall(issued: nat)

  ghost function Asking(client: Client): multiset<Call> {
    match client
    case AskingOne(key, issued) => multiset{OneCall(key, issued)}
    case AwaitingOne(key, issued) => multiset{OneCall(key, issued)}
    case AskingAll(issued) => multiset{AllCall(issued)}
    case AwaitingAll(issued) => multiset{AllCall(issued)}
    case _ => multiset{}
  }

  function CallOf(read: Read): Call {
    match read
    case ReadOne(key, issued, _, _) => OneCall(key, issued)
    case ReadAll(issued, _, _) => AllCall(issued)
  }

  ghost function Answered(log: seq<Read>): multiset<Call> {
    if log == [] then multiset{} else Answered(log[..|log| - 1]) + multiset{CallOf(log[|log| - 1])}
  }

  /** The read a step calls for. One of the empty key is not sent. */
  ghost function ReadIn(a: Action, accepted: nat): multiset<Call> {
    match a
    case CallGet(_, key) => if key != "" then multiset{OneCall(key, accepted)} else multiset{}
    case CallGetAll(_) => multiset{AllCall(accepted)}
    case _ => multiset{}
  }

  ghost function StateAt(n: nat, run: seq<Action>, p: nat): State
    requires Schedule(Init(n), run) && p <= |run|
  {
    SplitRun(Init(n), run, p);
    Exec(Init(n), run[..p])
  }

  ghost function CalledReads(n: nat, run: seq<Action>): multiset<Call>
    requires Schedule(Init(n), run)
    decreases |run|
  {
    if run == [] then multiset{}
    else
      LastStep(Init(n), run);
      CalledReads(n, run[..|run| - 1]) + ReadIn(run[|run| - 1], |StateAt(n, run, |run| - 1).accepted|)
  }

  lemma StepAnswers(s: State, a: Action, call: Call)
    requires Enabled(s, a) && ReplyOk(s)
    ensures a.Reply? ==> Answered(Step(s, a).log)[call]
                         == Answered(s.log)[call] + Asking(s.clients[Mover(s, a)])[call]
    ensures !a.Reply? ==> Step(s, a).log == s.log
  {
    hide Value, Bump, Total, Totals;
    if a.Reply? {
      var log' := Step(s, a).log;
      assert log'[..|log'| - 1] == s.log;
    }
  }

  lemma CallerAsks(s: State, a: Action, call: Call)
    requires Enabled(s, a) && (a.CallInc? || a.CallGet? || a.CallGetAll? || a.TakeInc?)
    ensures var c := Mover(s, a);
            Asking(Step(s, a).clients[c])[call] == Asking(s.clients[c])[call] + ReadIn(a, |s.accepted|)[call]
  {
  }

  lemma SenderAsks(s: State, a: Action, call: Call)
    requires Enabled(s, a) && (a.SendGet? || a.SendGetAll?)
    ensures var c := Mover(s, a);
            Asking(Step(s, a).clients[c])[call] == Asking(s.clients[c])[call] + ReadIn(a, |s.accepted|)[call]
  {
  }

  lemma ReplyAsks(s: State, call: Call)
    requires Enabled(s, Reply) && ReplyOk(s)
    ensures Mover(s, Reply) == s.loop.client < |s.clients|
    ensures Asking(Step(s, Reply).clients[s.loop.client]) == multiset{}
  {
    hide Total, Totals;
  }

  lemma MoverAsks(s: State, a: Action, call: Call)
    requires Enabled(s, a) && ReplyOk(s) && Mover(s, a) < |s.clients|
    requires a.CallInc? || a.CallGet? || a.CallGetAll? || a.TakeInc? || a.SendGet? || a.SendGetAll? || a.Reply?
    ensures var c := Mover(s, a); var before, after := Asking(s.clients[c])[call], Asking(Step(s, a).clients[c])[call];
            after == if a.Reply? then 0 else before + ReadIn(a, |s.accepted|)[call]
  {
    hide Enabled, Step, Asking, ReplyOk, ReadIn;
    if a.Reply? {
      ReplyAsks(s, call);
    } else if a.SendGet? || a.SendGetAll? {
      SenderAsks(s, a, call);
    } else {
      CallerAsks(s, a, call);
    }
  }

  lemma NoMoverAsks(s: State, a: Action)
    requires Enabled(s, a)
    requires a.NoQuit? || a.NoInc? || a.Apply? || a.TakeGet? || a.TakeGetAll? || a.NoGet?
    ensures Step(s, a).clients == s.clients && ReadIn(a, |s.accepted|) == multiset{}
  {
    hide Value, Bump, Total, Totals;
  }

  lemma StepAsks(s: State, a: Action, call: Call)
    requires Enabled(s, a) && ReplyOk(s)
    ensures var s' := Step(s, a);
            Answered(s'.log)[call] + UnderWay(Asking, s'.clients)[call]
            == Answered(s.log)[call] + UnderWay(Asking, s.clients)[call] + ReadIn(a, |s.accepted|)[call]
  {
    hide Enabled, Step, Asking, UnderWay, ReadIn, Answered, ReplyOk;
    var c, s' := Mover(s, a), Step(s, a);
    StepMoves(s, a);
    StepAnswers(s, a, call);
    if a.CallInc? || a.CallGet? || a.CallGetAll? || a.TakeInc? || a.SendGet? || a.SendGetAll? || a.Reply? {
      MoverThere(s, a);
      MoverAsks(s, a, call);
      ReplyReads(a, |s.accepted|);
      UnderWayUpdate(Asking, s.clients, c, s'.clients[c], call);
      assert s.clients[c := s.clients[c]] == s.clients;
    } else {
      NoMoverAsks(s, a);
    }
  }

  lemma MoverThere(s: State, a: Action)
    requires Enabled(s, a)
    requires a.CallInc? || a.CallGet? || a.CallGetAll? || a.TakeInc? || a.SendGet? || a.SendGetAll? || a.Reply?
    ensures Mover(s, a) < |s.clients|
  {
  }

  lemma ReplyReads(a: Action, accepted: nat)
    ensures a.Reply? ==> ReadIn(a, accepted) == multiset{}
  {
  }

  /** In every run, the reads called for are the answered ones and those under way: each is answered at most once, and
      no answer is for a read that was not called for, with that key, when that many increments had been accepted. */
  lemma {:induction false} ReadsArrive(n: nat, run: seq<Action>, call: Call)
    requires Schedule(Init(n), run)
    ensures var s := Exec(Init(n), run);
            CalledReads(n, run)[call] == Answered(s.log)[call] + UnderWay(Asking, s.clients)[call]
    decreases |run|
  {
    hide Enabled, Step, Schedule, Exec, UnderWay, Inv;
    if run == [] {
      NoSteps(n);
      IdleNothing(Asking, Init(n).clients);
    } else {
      LastStep(Init(n), run);
      var init := run[..|run| - 1];
      ReadsArrive(n, init, call);
      RunReply(n, init);
      StepAsks(Exec(Init(n), init), run[|run| - 1], call);
    }
  }

  lemma NoSteps(n: nat)
    ensures Exec(Init(n), []) == Init(n)
  {
  }

  lemma RunReply(n: nat, run: seq<Action>)
    requires Schedule(Init(n), run)
    ensures ReplyOk(Exec(Init(n), run))
  {
    hide CtrOk, QueuesOk, ReplyOk, ClientOk, ReadOk, Exec, Schedule;
    InitInv(n);
    RunInv(Init(n), run);
  }

  /** The step of a run that called for a read. */
  lemma {:induction false} CallStep(n: nat, run: seq<Action>, call: Call) returns (p: nat)
    requires Schedule(Init(n), run) && call in CalledReads(n, run)
    ensures p < |run| && call in ReadIn(run[p], |StateAt(n, run, p).accepted|)
    decreases |run|
  {
    hide Enabled, Step, Schedule, Exec, ReadIn;
    LastStep(Init(n), run);
    var init := run[..|run| - 1];
    if call in ReadIn(run[|run| - 1], |StateAt(n, run, |run| - 1).accepted|) {
      p := |run| - 1;
    } else {
      p := CallStep(n, init, call);
      assert init[..p] == run[..p];
    }
  }

  lemma {:induction false} LoggedIn(log: seq<Read>, i: nat)
    requires i < |log|
    ensures CallOf(log[i]) in Answered(log)
  {
    if i < |log| - 1 {
      LoggedIn(log[..|log| - 1], i);
    }
  }

  /** The call of a read in the log: of this key, or of all. */
  ghost predicate IsCallOf(a: Action, read: Read) {
    match read
    case ReadOne(key, _, _, _) => a.CallGet? && a.key == key && key != ""
    case ReadAll(_, _, _) => a.CallGetAll?
  }

  /** In every run, every answer is to a call made in it, of that key. Of the increments called for before that call,
      every one that was not still being sent then is among those the answer is the sum of. */
  lemma ReadSeesCalls(n: nat, run: seq<Action>, i: nat) returns (p: nat)
    requires Schedule(Init(n), run) && i < |Exec(Init(n), run).log|
    ensures var s := Exec(Init(n), run); var read := s.log[i];
            && p < |run| && IsCallOf(run[p], read) && ReadOk(s.accepted, read)
            && forall inc :: CalledFor(run[..p])[inc]
                             <= multiset(s.accepted[..read.served])[inc] + BeingSent(StateAt(n, run, p).clients)[inc]
  {
    hide Enabled, Step, Schedule, Exec, ReadOk, CalledFor, BeingSent, Answered, Inv, CalledReads;
    var s := Exec(Init(n), run);
    var read := s.log[i];
    LoggedIn(s.log, i);
    ReadsArrive(n, run, CallOf(read));
    p := CallStep(n, run, CallOf(read));
    ReadsAreAtomic(n, run, [], i) by { NoMore(s); }
    var before := StateAt(n, run, p);
    SplitRun(Init(n), run, p);
    InitInv(n);
    RunInv(Init(n), run[..p]);
    RunInv(before, run[p..]);
    ServedLater(s.accepted, read, before.accepted);
    forall inc
      ensures CalledFor(run[..p])[inc] <= multiset(s.accepted[..read.served])[inc] + BeingSent(before.clients)[inc]
    {
      IncrementsArrive(n, run[..p], inc);
      PrefixBag(s.accepted, before.accepted, read.served, inc);
    }
  }

  lemma NoMore(s: State)
    ensures Schedule(s, [])
  {
  }

  lemma ServedLater(accepted: seq<Increment>, read: Read, before: seq<Increment>)
    requires ReadOk(accepted, read) && before <= accepted && read.issued == |before|
    ensures |before| <= read.served <= |accepted|
  {
  }

  lemma PrefixBag(accepted: seq<Increment>, before: seq<Increment>, served: nat, inc: Increment)
    requires before <= accepted && |before| <= served <= |accepted|
    ensures multiset(before)[inc] <= multiset(accepted[..served])[inc]
  {
    assert accepted[..served] == before + accepted[|before|..served];
  }

  // ----- every call can be completed

  /** Who waits for an answer is in a channel, or is about to get it. */
  ghost predicate WaitersOk(s: State) {
    && (forall c :: 0 <= c < |s.clients| && s.clients[c].AwaitingOne? ==>
          c in s.chGet || (s.loop.ReplyingOne? && s.loop.client == c))
    && (forall c :: 0 <= c < |s.clients| && s.clients[c].AwaitingAll? ==>
          c in s.chGetAll || (s.loop.ReplyingAll? && s.loop.client == c))
  }

  lemma WaitersLoop(s: State, a: Action)
    requires WaitersOk(s) && Enabled(s, a) && (a.NoQuit? || a.NoInc? || a.Apply? || a.NoGet? || a.TakeInc?)
    ensures WaitersOk(Step(s, a))
  {
    hide Value, Bump;
  }

  lemma WaitersCall(s: State, a: Action)
    requires WaitersOk(s) && Enabled(s, a) && (a.CallInc? || a.CallGet? || a.CallGetAll?)
    ensures WaitersOk(Step(s, a))
  {
  }

  lemma WaitersSend(s: State, a: Action)
    requires WaitersOk(s) && Enabled(s, a) && (a.SendGet? || a.SendGetAll?)
    ensures WaitersOk(Step(s, a))
  {
  }

  lemma WaitersTake(s: State, a: Action)
    requires WaitersOk(s) && Enabled(s, a) && (a.TakeGet? || a.TakeGetAll?)
    ensures WaitersOk(Step(s, a))
  {
    hide Value;
  }

  lemma WaitersReply(s: State)
    requires WaitersOk(s) && Enabled(s, Reply)
    ensures WaitersOk(Step(s, Reply))
  {
  }

  lemma {:induction false} RunWaiters(s: State, run: seq<Action>)
    requires WaitersOk(s) && Schedule(s, run)
    ensures WaitersOk(Exec(s, run))
    decreases run
  {
    hide Enabled, Step, WaitersOk;
    if run != [] {
      var a := run[0];
      if a.CallInc? || a.CallGet? || a.CallGetAll? {
        WaitersCall(s, a);
      } else if a.SendGet? || a.SendGetAll? {
        WaitersSend(s, a);
      } else if a.TakeGet? || a.TakeGetAll? {
        WaitersTake(s, a);
      } else if a.Reply? {
        WaitersReply(s);
      } else {
        WaitersLoop(s, a);
      }
      RunWaiters(Step(s, a), run[1..]);
    }
  }

  /** What every reachable state has. */
  ghost predicate Sound(s: State) {
    Inv(s) && WaitersOk(s)
  }

  lemma RunSound(s: State, run: seq<Action>)
    requires Sound(s) && Schedule(s, run)
    ensures Sound(Exec(s, run)) && s.log <= Exec(s, run).log && s.accepted <= Exec(s, run).accepted
  {
    hide Inv, WaitersOk, Exec, Schedule;
    RunInv(s, run);
    RunWaiters(s, run);
  }

  lemma InitSound(n: nat)
    ensures Sound(Init(n))
  {
    InitInv(n);
  }

  lemma StepSound(s: State, a: Action)
    requires Sound(s) && Enabled(s, a)
    ensures Sound(Step(s, a))
  {
    hide Inv, WaitersOk, Enabled, Step;
    OneStep(s, a);
    RunSound(s, [a]);
  }

  lemma Goes(s: State, a: Action, run: seq<Action>)
    requires Enabled(s, a) && Schedule(Step(s, a), run)
    ensures Schedule(s, [a] + run) && Exec(s, [a] + run) == Exec(Step(s, a), run)
  {
    hide Enabled, Step;
    assert ([a] + run)[1..] == run;
  }

  /** A step of the goroutine alone. Of the reads that wait it prefers those of one key, or those of all. */
  function Next(s: State, all: bool): Action {
    match s.loop
    case AtQuit => NoQuit
    case AtInc => NoInc
    case Applying(_) => Apply
    case AtGets =>
      if s.chGet != [] && (!all || s.chGetAll == []) then TakeGet
      else if s.chGetAll != [] then TakeGetAll else NoGet
    case _ => Reply
  }

  /** How far it is to where increments are taken. */
  function ToInc(loop: Loop): nat {
    match loop
    case AtInc => 0
    case AtQuit => 1
    case AtGets => 3
    case _ => 2
  }

  /** How far it is to where reads are taken. */
  function ToGets(loop: Loop): nat {
    match loop
    case AtGets => 0
    case AtInc => 1
    case AtQuit => 2
    case _ => 3
  }

  lemma NextGoes(s: State, all: bool)
    requires Inv(s)
    ensures Enabled(s, Next(s, all))
    ensures s.loop != AtInc ==> ToInc(Step(s, Next(s, all)).loop) < ToInc(s.loop)
    ensures s.loop != AtGets ==> ToGets(Step(s, Next(s, all)).loop) < ToGets(s.loop)
  {
    hide Totals, Total, Value, Bump;
    assert s.chGet != [] ==> s.chGet[0] in s.chGet;
  }

  predicate Waits(client: Client) {
    client.AwaitingOne? || client.AwaitingAll?
  }

  lemma NextKeeps(s: State, all: bool, c: nat)
    requires Enabled(s, Next(s, all)) && c < |s.clients|
    ensures var s' := Step(s, Next(s, all));
            && s'.accepted == s.accepted && |s'.clients| == |s.clients|
            && (!Waits(s.clients[c]) ==> s'.clients[c] == s.clients[c])
            && (s.loop != AtGets ==> s'.chGet == s.chGet && s'.chGetAll == s.chGetAll)
  {
    hide Value, Bump;
  }

  /** Whatever it is doing, the goroutine gets to where it takes increments, and the senders are still there. */
  lemma {:induction false} GetsToInc(s: State, c: nat) returns (run: seq<Action>)
    requires Sound(s) && c < |s.clients| && s.clients[c].Incrementing?
    ensures Schedule(s, run)
    ensures var s' := Exec(s, run);
            && s'.loop == AtInc && s'.accepted == s.accepted
            && c < |s'.clients| && s'.clients[c] == s.clients[c]
    decreases ToInc(s.loop)
  {
    hide Enabled, Step, Inv, WaitersOk;
    run := [];
    if s.loop != AtInc {
      var a := Next(s, false);
      NextGoes(s, false);
      NextKeeps(s, false, c);
      StepSound(s, a);
      var rest := GetsToInc(Step(s, a), c);
      Goes(s, a, rest);
      run := [a] + rest;
    }
  }

  lemma Takes(s: State, c: nat)
    requires s.loop == AtInc && c < |s.clients| && s.clients[c].Incrementing?
    ensures Enabled(s, TakeInc(c))
    ensures Step(s, TakeInc(c)).accepted == s.accepted + [s.clients[c].inc]
    ensures c < |Step(s, TakeInc(c)).clients| && Step(s, TakeInc(c)).clients[c] == Idle
  {
  }

  /** From every reachable state, an increment being sent can be accepted next of all. */
  lemma IncrementGetsThere(s: State, c: nat) returns (run: seq<Action>)
    requires Sound(s) && c < |s.clients| && s.clients[c].Incrementing?
    ensures Schedule(s, run)
    ensures var s' := Exec(s, run);
            c < |s'.clients| && s'.clients[c] == Idle && s'.accepted == s.accepted + [s.clients[c].inc]
  {
    hide Enabled, Step, Sound, Exec, Schedule;
    var there := GetsToInc(s, c);
    var at := Exec(s, there);
    Takes(at, c);
    OneStep(at, TakeInc(c));
    Continues(s, there, [TakeInc(c)]);
    run := there + [TakeInc(c)];
  }

  /** The channel a client waits in, or would. */
  function Queue(s: State, all: bool): seq<nat> {
    if all then s.chGetAll else s.chGet
  }

  lemma TakesFirst(s: State, all: bool)
    requires s.loop == AtGets && Queue(s, all) != [] && Enabled(s, Next(s, all))
    ensures var s' := Step(s, Next(s, all));
            && Queue(s', all) == Queue(s, all)[1..] && s'.clients == s.clients
            && s'.loop == if all then ReplyingAll(s.chGetAll[0], s.ctr)
                          else ReplyingOne(s.chGet[0], Value(s.ctr, s.clients[s.chGet[0]].key))
  {
    hide Value;
  }

  /** One who waits has been taken up, so there is room in the channel. */
  lemma {:induction false} MakesRoom(s: State, all: bool, c: nat) returns (run: seq<Action>)
    requires Sound(s) && Queue(s, all) != [] && c < |s.clients| && !Waits(s.clients[c])
    ensures Schedule(s, run)
    ensures var s' := Exec(s, run);
            && Sound(s') && |Queue(s', all)| < |Queue(s, all)| && s.log <= s'.log
            && c < |s'.clients| && s'.clients[c] == s.clients[c]
    decreases ToGets(s.loop)
  {
    hide Enabled, Step, Inv, WaitersOk, ToGets;
    var a := Next(s, all);
    NextGoes(s, all);
    NextKeeps(s, all, c);
    StepSound(s, a);
    OneStep(s, a);
    if s.loop == AtGets {
      TakesFirst(s, all);
      run := [a];
    } else {
      var rest := MakesRoom(Step(s, a), all, c);
      Goes(s, a, rest);
      run := [a] + rest;
    }
    RunSound(s, run);
  }

  /** The client of the answer on its way. */
  predicate Answering(s: State, all: bool, c: nat) {
    if all then s.loop.ReplyingAll? && s.loop.client == c else s.loop.ReplyingOne? && s.loop.client == c
  }

  ghost predicate AnsweredNow(s: State, s': State, c: nat)
    requires c < |s.clients|
  {
    && c < |s'.clients| && s'.clients[c] == Idle && s'.log != []
    && Asking(s.clients[c]) == multiset{CallOf(s'.log[|s'.log| - 1])}
  }

  lemma RepliesTo(s: State, all: bool, c: nat)
    requires Inv(s) && Answering(s, all, c)
    ensures Enabled(s, Reply) && c < |s.clients| && AnsweredNow(s, Step(s, Reply), c)
  {
    hide Totals, Total;
  }

  lemma StillWaits(s: State, all: bool, c: nat)
    requires Inv(s) && c < |s.clients| && !Answering(s, all, c)
    requires if all then s.clients[c].AwaitingAll? else s.clients[c].AwaitingOne?
    ensures Enabled(s, Next(s, all)) && c < |Step(s, Next(s, all)).clients|
    ensures Step(s, Next(s, all)).clients[c] == s.clients[c]
  {
    hide Totals, Total, Value, Bump;
    NextGoes(s, all);
  }

  /** A read that waits is answered. */
  lemma {:induction false} AnswerComes(s: State, all: bool, c: nat) returns (run: seq<Action>)
    requires Sound(s) && c < |s.clients|
    requires if all then s.clients[c].AwaitingAll? else s.clients[c].AwaitingOne?
    ensures Schedule(s, run) && AnsweredNow(s, Exec(s, run), c)
    decreases |Queue(s, all)|, ToGets(s.loop)
  {
    hide Enabled, Step, Inv, ToGets, AnsweredNow, Asking;
    if Answering(s, all, c) {
      RepliesTo(s, all, c);
      OneStep(s, Reply);
      run := [Reply];
    } else {
      var a := Next(s, all);
      NextGoes(s, all);
      NextKeeps(s, all, c);
      StillWaits(s, all, c);
      StepSound(s, a);
      if s.loop == AtGets {
        TakesFirst(s, all);
      }
      var rest := AnswerComes(Step(s, a), all, c);
      Goes(s, a, rest);
      SameAsk(s, Step(s, a), Exec(Step(s, a), rest), c);
      run := [a] + rest;
    }
  }

  lemma SameAsk(s: State, t: State, s': State, c: nat)
    requires c < |s.clients| && c < |t.clients| && s.clients[c] == t.clients[c] && AnsweredNow(t, s', c)
    ensures AnsweredNow(s, s', c)
  {
  }

  lemma Sends(s: State, all: bool, c: nat)
    requires c < |s.clients| && |Queue(s, all)| < 100
    requires if all then s.clients[c].AskingAll? else s.clients[c].AskingOne?
    ensures var a := if all then SendGetAll(c) else SendGet(c); var s' := Step(s, a);
            && Enabled(s, a) && c < |s'.clients| && Asking(s'.clients[c]) == Asking(s.clients[c])
            && if all then s'.clients[c].AwaitingAll? else s'.clients[c].AwaitingOne?
  {
  }

  lemma QueueBound(s: State, all: bool)
    requires Bounded(s)
    ensures |Queue(s, all)| <= 100
  {
  }

  /** The channels hold at most a hundred reads each. */
  ghost predicate Bounded(s: State) {
    |s.chGet| <= 100 && |s.chGetAll| <= 100
  }

  lemma {:induction false} RunBounded(s: State, run: seq<Action>)
    requires Bounded(s) && Schedule(s, run)
    ensures Bounded(Exec(s, run))
    decreases run
  {
    if run != [] {
      RunBounded(Step(s, run[0]), run[1..]);
    }
  }

  /** From every reachable state, a read called for can be answered: with its key, as of when it was called for. */
  lemma ReadGetsThere(s: State, c: nat) returns (run: seq<Action>)
    requires Sound(s) && Bounded(s) && c < |s.clients| && Asking(s.clients[c]) != multiset{}
    ensures Schedule(s, run) && AnsweredNow(s, Exec(s, run), c)
  {
    hide Enabled, Step, Sound, Exec, Schedule, AnsweredNow, Bounded;
    var all := s.clients[c].AskingAll? || s.clients[c].AwaitingAll?;
    if Waits(s.clients[c]) {
      run := AnswerComes(s, all, c);
    } else {
      QueueBound(s, all);
      var room: seq<Action> := [];
      if |Queue(s, all)| == 100 {
        room := MakesRoom(s, all, c);
      } else {
        Stays(s);
      }
      var roomy := Exec(s, room);
      var a := if all then SendGetAll(c) else SendGet(c);
      Sends(roomy, all, c);
      StepSound(roomy, a);
      OneStep(roomy, a);
      Continues(s, room, [a]);
      var rest := AnswerComes(Step(roomy, a), all, c);
      Continues(s, room + [a], rest);
      run := room + [a] + rest;
      SameCall(s, Step(roomy, a), Exec(s, run), c);
    }
  }

  lemma Stays(s: State)
    ensures Schedule(s, []) && Exec(s, []) == s
  {
  }

  lemma SameCall(s: State, t: State, s': State, c: nat)
    requires c < |s.clients| && c < |t.clients| && Asking(s.clients[c]) == Asking(t.clients[c]) && AnsweredNow(t, s', c)
    ensures AnsweredNow(s, s', c)
  {
  }

  /** In every run, every call under way can be completed: an increment by being accepted next, a read by an answer
      to it. */
  lemma CallsComplete(n: nat, run: seq<Action>, c: nat) returns (more: seq<Action>)
    requires Schedule(Init(n), run) && c < |Exec(Init(n), run).clients| && Exec(Init(n), run).clients[c] != Idle
    ensures var s := Exec(Init(n), run);
            && Schedule(s, more) && c < |Exec(s, more).clients| && Exec(s, more).clients[c] == Idle
            && if s.clients[c].Incrementing? then Exec(s, more).accepted == s.accepted + [s.clients[c].inc]
               else var log := Exec(s, more).log;
                    log != [] && Asking(s.clients[c]) == multiset{CallOf(log[|log| - 1])}
  {
    hide Enabled, Step, Sound, Exec, Schedule;
    InitSound(n);
    RunSound(Init(n), run);
    RunBounded(Init(n), run);
    var s := Exec(Init(n), run);
    if s.clients[c].Incrementing? {
      more := IncrementGetsThere(s, c);
    } else {
      more := ReadGetsThere(s, c);
    }
  }
}
