/** A counter map owned by one goroutine that serves requests from many. */
module Counters {

  const TWO_TO_THE_64: nat := 0x1_0000_0000_0000_0000

  type Table = map<string, nat>

  datatype Increment = Increment(key: string, value: nat)

  function Value(table: Table, key: string): nat {
    if key in table then table[key] else 0
  }

  /** Adds to a counter; the sum may overflow. */
  function Bump(table: Table, inc: Increment): Table {
    table[inc.key := (Value(table, inc.key) + inc.value) % TWO_TO_THE_64]
  }

  // ----- the sum of increments

  /** All that was ever added to a key. */
  ghost function Total(incs: seq<Increment>, key: string): nat {
    if incs == [] then 0
    else Total(incs[..|incs| - 1], key) + if incs[|incs| - 1].key == key then incs[|incs| - 1].value else 0
  }

  ghost predicate Counted(incs: seq<Increment>, key: string) {
    exists i :: 0 <= i < |incs| && incs[i].key == key
  }

  /** A table that holds, for exactly the keys incremented, the sums modulo 2^64. */
  ghost predicate Totals(table: Table, incs: seq<Increment>) {
    && (forall key :: key in table <==> Counted(incs, key))
    && (forall key :: key in table ==> table[key] == Total(incs, key) % TWO_TO_THE_64)
  }

  lemma ModAdd(a: nat, b: nat)
    ensures (a % TWO_TO_THE_64 + b) % TWO_TO_THE_64 == (a + b) % TWO_TO_THE_64
  {
  }

  lemma TotalPush(incs: seq<Increment>, inc: Increment, key: string)
    ensures Total(incs + [inc], key) == Total(incs, key) + if inc.key == key then inc.value else 0
    ensures Counted(incs + [inc], key) <==> Counted(incs, key) || inc.key == key
  {
  }

  lemma {:induction false} TotalUncounted(incs: seq<Increment>, key: string)
    requires !Counted(incs, key)
    ensures Total(incs, key) == 0
  {
    if incs != [] {
      var init := incs[..|incs| - 1];
      assert forall i :: 0 <= i < |init| ==> init[i] == incs[i];
      TotalUncounted(init, key);
    }
  }

  /** Applying an increment brings the table to the sums with it. */
  lemma BumpTotals(table: Table, incs: seq<Increment>, inc: Increment)
    requires Totals(table, incs)
    ensures Totals(Bump(table, inc), incs + [inc])
  {
    hide Counted, Total;
    var table' := Bump(table, inc);
    forall key
      ensures key in table' <==> Counted(incs + [inc], key)
      ensures key in table' ==> table'[key] == Total(incs + [inc], key) % TWO_TO_THE_64
    {
      TotalPush(incs, inc, key);
      if key == inc.key {
        ModAdd(Total(incs, key), inc.value);
        if key !in table {
          TotalUncounted(incs, key);
        }
      }
    }
  }

  lemma ValueTotal(table: Table, incs: seq<Increment>, key: string)
    requires Totals(table, incs)
    ensures Value(table, key) == Total(incs, key) % TWO_TO_THE_64
  {
    if key !in table {
      TotalUncounted(incs, key);
    }
  }

  // ----- the state the goroutine changes in place

  /** A Go map: a reference to contents. */
  class CtrMap {
    var m: Table

    constructor ()
      ensures m == map[]
    {
      m := map[];
    }
  }

  class Server {
    const ctr: CtrMap
    /** The increments received, except of the empty key. */
    ghost var received: seq<Increment>

    ghost predicate Valid()
      reads this, ctr
    {
      Totals(ctr.m, received)
    }

    constructor ()
      ensures Valid() && received == [] && fresh(ctr)
    {
      ctr := new CtrMap();
      received := [];
    }

    /** An increment received: one counter grows, modulo 2^64. */
    method Inc(inc: Increment)
      requires Valid()
      modifies this`received, ctr
      ensures Valid() && received == old(received) + if inc.key == "" then [] else [inc]
      ensures ctr.m == if inc.key == "" then old(ctr.m) else Bump(old(ctr.m), inc)
    {
      hide Totals;
      if inc.key != "" {
        BumpTotals(ctr.m, received, inc);
        ctr.m := ctr.m[inc.key := (Value(ctr.m, inc.key) + inc.value) % TWO_TO_THE_64];
        received := received + [inc];
      }
    }

    /** The sum of what was received for the key, if anything was. */
    method Get(key: string) returns (v: nat)
      requires Valid()
      ensures v == Total(received, key) % TWO_TO_THE_64
    {
      ValueTotal(ctr.m, received, key);
      if key in ctr.m {
        v := ctr.m[key];
      } else {
        v := 0;
      }
    }

    /** Copies the counters, in any order, into a map of its own. */
    method GetAll() returns (m: CtrMap)
      requires Valid()
      ensures fresh(m) && m.m == ctr.m && Totals(m.m, received)
    {
      m := new CtrMap();
      var todo := ctr.m.Keys;
      while todo != {}
        invariant todo <= ctr.m.Keys && m.m == ctr.m - todo
        decreases todo
      {
        var k :| k in todo;
        m.m := m.m[k := ctr.m[k]];
        todo := todo - {k};
      }
      assert ctr.m - {} == ctr.m;
    }

    /** Later increments do not show in a snapshot taken before. */
    method SnapshotThenInc(incs: seq<Increment>) returns (m: CtrMap)
      requires Valid()
      modifies this`received, ctr
      ensures Valid() && fresh(m) && Totals(m.m, old(received))
    {
      m := GetAll();
      for i := 0 to |incs|
        invariant Valid() && m.m == old(ctr.m)
      {
        Inc(incs[i]);
      }
    }
  }

  // ----- the goroutine and its clients

  const GetDepth: nat := 100
  const GetAllDepth: nat := 100

  /** `issued` is the number of increments accepted when the call was made. */
  datatype Client =
    | Idle
    | Incrementing(inc: Increment)
    | AskingOne(key: string, issued: nat)
    | AwaitingOne(key: string, issued: nat)
    | AskingAll(issued: nat)
    | AwaitingAll(issued: nat)

  datatype Loop =
    | AtQuit
    | AtInc
    | Applying(inc: Increment)
    | AtGets
    | ReplyingOne(client: nat, v: nat)
    | ReplyingAll(client: nat, m: Table)

  /** A read that returned: what was asked, how many increments had been accepted at the call and when it was
      served, and the answer. */
  datatype Read =
    | ReadOne(key: string, issued: nat, served: nat, v: nat)
    | ReadAll(issued: nat, served: nat, m: Table)

  /** `accepted` and `log` record what has happened; the program does not have them. */
  datatype State = State(ctr: Table, loop: Loop, chGet: seq<nat>, chGetAll: seq<nat>, clients: seq<Client>,
                         accepted: seq<Increment>, log: seq<Read>)

  datatype Action =
    | CallInc(c: nat, inc: Increment)
    | CallGet(c: nat, key: string)
    | CallGetAll(c: nat)
    | SendGet(c: nat)
    | SendGetAll(c: nat)
    | NoQuit
    | TakeInc(c: nat)
    | NoInc
    | Apply
    | TakeGet
    | TakeGetAll
    | NoGet
    | Reply

  predicate Is(s: State, c: nat, client: Client) {
    c < |s.clients| && s.clients[c] == client
  }

  predicate Enabled(s: State, a: Action) {
    match a
    case CallInc(c, inc) => Is(s, c, Idle) && inc.value < TWO_TO_THE_64
    case CallGet(c, _) => Is(s, c, Idle)
    case CallGetAll(c) => Is(s, c, Idle)
    case SendGet(c) => c < |s.clients| && s.clients[c].AskingOne? && |s.chGet| < GetDepth
    case SendGetAll(c) => c < |s.clients| && s.clients[c].AskingAll? && |s.chGetAll| < GetAllDepth
    case NoQuit => s.loop == AtQuit
    case TakeInc(c) => s.loop == AtInc && c < |s.clients| && s.clients[c].Incrementing?
    case NoInc => s.loop == AtInc
    case Apply => s.loop.Applying?
    case TakeGet => s.loop == AtGets && s.chGet != [] && s.chGet[0] < |s.clients| && s.clients[s.chGet[0]].AwaitingOne?
    case TakeGetAll => s.loop == AtGets && s.chGetAll != []
    case NoGet => s.loop == AtGets && s.chGet == [] && s.chGetAll == []
    case Reply =>
      match s.loop
      case ReplyingOne(c, _) => c < |s.clients| && s.clients[c].AwaitingOne?
      case ReplyingAll(c, _) => c < |s.clients| && s.clients[c].AwaitingAll?
      case _ => false
  }

  function SetClient(s: State, c: nat, client: Client): State
    requires c < |s.clients|
  {
    s.(clients := s.clients[c := client])
  }

  /** Increments of nothing, and of the empty key, return at once; a read of the empty key is not sent. */
  function Step(s: State, a: Action): State
    requires Enabled(s, a)
  {
    match a
    case CallInc(c, inc) => if inc.key != "" && inc.value > 0 then SetClient(s, c, Incrementing(inc)) else s
    case CallGet(c, key) => if key == "" then s else SetClient(s, c, AskingOne(key, |s.accepted|))
    case CallGetAll(c) => SetClient(s, c, AskingAll(|s.accepted|))
    case SendGet(c) =>
      SetClient(s, c, AwaitingOne(s.clients[c].key, s.clients[c].issued)).(chGet := s.chGet + [c])
    case SendGetAll(c) =>
      SetClient(s, c, AwaitingAll(s.clients[c].issued)).(chGetAll := s.chGetAll + [c])
    case NoQuit => s.(loop := AtInc)
    case TakeInc(c) =>
      SetClient(s, c, Idle).(loop := Applying(s.clients[c].inc), accepted := s.accepted + [s.clients[c].inc])
    case NoInc => s.(loop := AtGets)
    case Apply => s.(loop := AtQuit, ctr := if s.loop.inc.key == "" then s.ctr else Bump(s.ctr, s.loop.inc))
    case TakeGet =>
      s.(loop := ReplyingOne(s.chGet[0], Value(s.ctr, s.clients[s.chGet[0]].key)), chGet := s.chGet[1..])
    case TakeGetAll => s.(loop := ReplyingAll(s.chGetAll[0], s.ctr), chGetAll := s.chGetAll[1..])
    case NoGet => s.(loop := AtQuit)
    case Reply =>
      var c := s.loop.client;
      var read := if s.loop.ReplyingOne?
                  then ReadOne(s.clients[c].key, s.clients[c].issued, |s.accepted|, s.loop.v)
                  else ReadAll(s.clients[c].issued, |s.accepted|, s.loop.m);
      SetClient(s, c, Idle).(loop := AtQuit, log := s.log + [read])
  }

  function Init(n: nat): State {
    State(map[], AtQuit, [], [], seq(n, _ => Idle), [], [])
  }

  predicate Schedule(s: State, run: seq<Action>)
    decreases run
  {
    run == [] || (Enabled(s, run[0]) && Schedule(Step(s, run[0]), run[1..]))
  }

  function Exec(s: State, run: seq<Action>): State
    requires Schedule(s, run)
    decreases run
  {
    if run == [] then s else Exec(Step(s, run[0]), run[1..])
  }

  // ----- the invariant

  /** How many of the accepted increments the table holds: all but the one being applied. */
  ghost function Applied(s: State): int {
    |s.accepted| - if s.loop.Applying? then 1 else 0
  }

  ghost predicate CtrOk(s: State) {
    && 0 <= Applied(s) && Totals(s.ctr, s.accepted[..Applied(s)])
    && (s.loop.Applying? ==> s.loop.inc == s.accepted[|s.accepted| - 1] && s.loop.inc.key != "")
  }

  ghost function Issued(client: Client): nat {
    match client
    case AskingOne(_, n) => n
    case AwaitingOne(_, n) => n
    case AskingAll(n) => n
    case AwaitingAll(n) => n
    case _ => 0
  }

  ghost predicate ClientOk(s: State, client: Client) {
    && Issued(client) <= |s.accepted|
    && (client.Incrementing? ==> client.inc.key != "" && 0 < client.inc.value < TWO_TO_THE_64)
  }

  /** A read answers with the sums of the increments accepted when it was served, which was after the call. */
  ghost predicate ReadOk(accepted: seq<Increment>, r: Read) {
    && r.issued <= r.served <= |accepted|
    && match r
       case ReadOne(key, _, n, v) => v == Total(accepted[..n], key) % TWO_TO_THE_64
       case ReadAll(_, n, m) => Totals(m, accepted[..n])
  }

  /** An answer on its way was read from a table that held every accepted increment. */
  ghost predicate ReplyOk(s: State) {
    match s.loop
    case ReplyingOne(c, v) =>
      c < |s.clients| && s.clients[c].AwaitingOne? && v == Total(s.accepted, s.clients[c].key) % TWO_TO_THE_64
    case ReplyingAll(c, m) => c < |s.clients| && s.clients[c].AwaitingAll? && Totals(m, s.accepted)
    case _ => true
  }

  /** The clients in the channels are the ones waiting for an answer, each once. */
  ghost predicate QueuesOk(s: State) {
    && (forall c :: c in s.chGet ==> c < |s.clients| && s.clients[c].AwaitingOne?)
    && (forall c :: c in s.chGetAll ==> c < |s.clients| && s.clients[c].AwaitingAll?)
    && (forall i, j :: 0 <= i < j < |s.chGet| ==> s.chGet[i] != s.chGet[j])
    && (forall i, j :: 0 <= i < j < |s.chGetAll| ==> s.chGetAll[i] != s.chGetAll[j])
    && (s.loop.ReplyingOne? ==> s.loop.client !in s.chGet)
    && (s.loop.ReplyingAll? ==> s.loop.client !in s.chGetAll)
  }

  ghost predicate Inv(s: State) {
    && CtrOk(s) && QueuesOk(s) && ReplyOk(s)
    && (forall c :: 0 <= c < |s.clients| ==> ClientOk(s, s.clients[c]))
    && (forall i :: 0 <= i < |s.log| ==> ReadOk(s.accepted, s.log[i]))
  }

  lemma InitInv(n: nat)
    ensures Inv(Init(n))
  {
  }

  lemma StepCtr(s: State, a: Action)
    requires CtrOk(s) && Enabled(s, a) && (a.TakeInc? ==> ClientOk(s, s.clients[a.c]))
    ensures CtrOk(Step(s, a))
  {
    hide Totals;
    var s' := Step(s, a);
    if a.TakeInc? {
      assert s'.accepted[..|s.accepted|] == s.accepted[..|s.accepted|];
    } else if a.Apply? {
      var n := |s.accepted| - 1;
      assert s.accepted[..n + 1] == s.accepted[..n] + [s.accepted[n]];
      BumpTotals(s.ctr, s.accepted[..n], s.accepted[n]);
    }
  }

  /** Nothing but the clients and the channels matters to `QueuesOk`. */
  lemma QueuesCall(s: State, a: Action)
    requires QueuesOk(s) && Enabled(s, a)
    requires a.CallInc? || a.CallGet? || a.CallGetAll? || a.TakeInc?
    ensures QueuesOk(Step(s, a))
  {
  }

  lemma QueuesSend(s: State, a: Action)
    requires QueuesOk(s) && ReplyOk(s) && Enabled(s, a) && (a.SendGet? || a.SendGetAll?)
    ensures QueuesOk(Step(s, a))
  {
    hide Totals, Total;
  }

  lemma TailDistinct(q: seq<nat>)
    requires q != [] && forall i, j :: 0 <= i < j < |q| ==> q[i] != q[j]
    ensures q[0] !in q[1..]
    ensures forall i, j :: 0 <= i < j < |q[1..]| ==> q[1..][i] != q[1..][j]
    ensures forall c :: c in q[1..] ==> c in q
  {
  }

  lemma QueuesTake(s: State, a: Action)
    requires QueuesOk(s) && Enabled(s, a) && (a.TakeGet? || a.TakeGetAll?)
    ensures QueuesOk(Step(s, a))
  {
    hide Value;
    if a.TakeGet? {
      TailDistinct(s.chGet);
    } else {
      TailDistinct(s.chGetAll);
    }
  }

  lemma QueuesReply(s: State)
    requires QueuesOk(s) && ReplyOk(s) && Enabled(s, Reply)
    ensures QueuesOk(Step(s, Reply))
  {
    hide Totals, Total;
  }

  lemma StepQueues(s: State, a: Action)
    requires QueuesOk(s) && ReplyOk(s) && Enabled(s, a)
    ensures QueuesOk(Step(s, a))
  {
    hide QueuesOk, ReplyOk;
    match a
    case CallInc(_, _) => QueuesCall(s, a);
    case CallGet(_, _) => QueuesCall(s, a);
    case CallGetAll(_) => QueuesCall(s, a);
    case TakeInc(_) => QueuesCall(s, a);
    case SendGet(_) => QueuesSend(s, a);
    case SendGetAll(_) => QueuesSend(s, a);
    case TakeGet => QueuesTake(s, a);
    case TakeGetAll => QueuesTake(s, a);
    case Reply => QueuesReply(s);
    case _ => QueuesLoop(s, a);
  }

  lemma QueuesLoop(s: State, a: Action)
    requires QueuesOk(s) && Enabled(s, a)
    requires a.NoQuit? || a.NoInc? || a.Apply? || a.NoGet?
    ensures QueuesOk(Step(s, a))
  {
  }

  /** What is taken up is answered from the table as it is. */
  lemma ReplyTake(s: State, a: Action)
    requires CtrOk(s) && QueuesOk(s) && Enabled(s, a) && (a.TakeGet? || a.TakeGetAll?)
    ensures ReplyOk(Step(s, a))
  {
    hide Totals, Total, Value;
    assert s.accepted[..|s.accepted|] == s.accepted;
    if a.TakeGet? {
      assert s.chGet[0] in s.chGet;
      ValueTotal(s.ctr, s.accepted, s.clients[s.chGet[0]].key);
    } else {
      assert s.chGetAll[0] in s.chGetAll;
    }
  }

  lemma StepReply(s: State, a: Action)
    requires CtrOk(s) && QueuesOk(s) && ReplyOk(s) && Enabled(s, a)
    ensures ReplyOk(Step(s, a))
  {
    if a.TakeGet? || a.TakeGetAll? {
      ReplyTake(s, a);
    } else {
      ReplyKept(s, a);
    }
  }

  /** An answer on its way stays right. */
  lemma ReplyKept(s: State, a: Action)
    requires ReplyOk(s) && Enabled(s, a) && !a.TakeGet? && !a.TakeGetAll?
    ensures ReplyOk(Step(s, a))
  {
    hide Totals, Total, Value, Bump;
  }

  lemma ClientsCall(s: State, a: Action)
    requires Enabled(s, a) && forall c :: 0 <= c < |s.clients| ==> ClientOk(s, s.clients[c])
    ensures forall c :: 0 <= c < |s.clients| ==> ClientOk(Step(s, a), Step(s, a).clients[c])
  {
    hide Bump, Value;
    var s' := Step(s, a);
    forall c | 0 <= c < |s.clients|
      ensures ClientOk(s', s'.clients[c])
    {
      assert ClientOk(s, s.clients[c]);
    }
  }

  /** More increments do not change what a read saw. */
  lemma ReadKept(accepted: seq<Increment>, more: seq<Increment>, r: Read)
    requires ReadOk(accepted, r)
    ensures ReadOk(accepted + more, r)
  {
    assert (accepted + more)[..r.served] == accepted[..r.served];
  }

  lemma ReadServed(s: State)
    requires ReplyOk(s) && Enabled(s, Reply)
    requires ClientOk(s, s.clients[s.loop.client])
    ensures Step(s, Reply).log[..|s.log|] == s.log && |Step(s, Reply).log| == |s.log| + 1
    ensures ReadOk(s.accepted, Step(s, Reply).log[|s.log|])
  {
    hide Total, Totals;
    assert s.accepted[..|s.accepted|] == s.accepted;
  }

  lemma StepLog(s: State, a: Action)
    requires Enabled(s, a) && ReplyOk(s)
    requires forall c :: 0 <= c < |s.clients| ==> ClientOk(s, s.clients[c])
    requires forall i :: 0 <= i < |s.log| ==> ReadOk(s.accepted, s.log[i])
    ensures s.accepted <= Step(s, a).accepted && s.log <= Step(s, a).log
    ensures forall i :: 0 <= i < |Step(s, a).log| ==> ReadOk(Step(s, a).accepted, Step(s, a).log[i])
  {
    hide ReadOk, ReplyOk, ClientOk, Bump, Value;
    var s' := Step(s, a);
    var more := s'.accepted[|s.accepted|..];
    assert s'.accepted == s.accepted + more;
    forall i | 0 <= i < |s.log|
      ensures ReadOk(s'.accepted, s.log[i])
    {
      ReadKept(s.accepted, more, s.log[i]);
    }
    if a.Reply? {
      ReadServed(s);
    }
  }

  /** Every step keeps the invariant, and takes back neither an accepted increment nor an answer. */
  lemma StepInv(s: State, a: Action)
    requires Inv(s) && Enabled(s, a)
    ensures Inv(Step(s, a))
    ensures s.accepted <= Step(s, a).accepted && s.log <= Step(s, a).log
    ensures |Step(s, a).clients| == |s.clients|
  {
    hide CtrOk, QueuesOk, ReplyOk, ClientOk, ReadOk, Bump, Value;
    if a.TakeInc? {
      assert ClientOk(s, s.clients[a.c]);
    }
    StepCtr(s, a);
    StepQueues(s, a);
    StepReply(s, a);
    ClientsCall(s, a);
    StepLog(s, a);
  }

  lemma {:induction false} RunInv(s: State, run: seq<Action>)
    requires Inv(s) && Schedule(s, run)
    ensures Inv(Exec(s, run))
    ensures s.accepted <= Exec(s, run).accepted && s.log <= Exec(s, run).log
    decreases run
  {
    hide Inv, Enabled, Step;
    if run != [] {
      StepInv(s, run[0]);
      RunInv(Step(s, run[0]), run[1..]);
    }
  }

  // ----- what the counters promise

  /** In every run, each counter is the sum modulo 2^64 of the increments accepted for its key, except while the
      goroutine is between accepting one and adding it. */
  lemma CountersAreSums(n: nat, run: seq<Action>, key: string)
    requires Schedule(Init(n), run)
    ensures var s := Exec(Init(n), run);
      && 0 <= Applied(s)
      && Value(s.ctr, key) == Total(s.accepted[..Applied(s)], key) % 18446744073709551616
      && (key in s.ctr <==> Counted(s.accepted[..Applied(s)], key))
  {
    hide Total, Counted, Value, Exec, Schedule;
    InitInv(n);
    RunInv(Init(n), run);
    var s := Exec(Init(n), run);
    ValueTotal(s.ctr, s.accepted[..Applied(s)], key);
  }

  /** In every run, every read is atomic: its answer is the sums of the first `served` accepted increments, and
      these include every one accepted before the call. No later step changes an answer. */
  lemma ReadsAreAtomic(n: nat, run: seq<Action>, later: seq<Action>, i: nat)
    requires Schedule(Init(n), run) && Schedule(Exec(Init(n), run), later)
    requires i < |Exec(Init(n), run).log|
    ensures var s := Exec(Init(n), run);
      && ReadOk(s.accepted, s.log[i])
      && i < |Exec(s, later).log| && Exec(s, later).log[i] == s.log[i]
      && s.accepted <= Exec(s, later).accepted
  {
    hide ReadOk, Exec, Schedule;
    InitInv(n);
    RunInv(Init(n), run);
    RunInv(Exec(Init(n), run), later);
  }

  /** The goroutine always has a next step: in particular the client of an answer is always there to take it. */
  lemma LoopNeverBlocks(s: State)
    requires Inv(s)
    ensures match s.loop
      case AtQuit => Enabled(s, NoQuit)
      case AtInc => Enabled(s, NoInc)
      case Applying(_) => Enabled(s, Apply)
      case AtGets => Enabled(s, TakeGet) || Enabled(s, TakeGetAll) || Enabled(s, NoGet)
      case _ => Enabled(s, Reply)
  {
    hide Totals, Total;
    assert s.chGet != [] ==> s.chGet[0] in s.chGet;
  }
}
