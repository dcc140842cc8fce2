/** Which runs the shard workers have: any distribution of the names over the shards comes about. */
module ShardRuns {
  import opened Shards

  /** The names assigned to a worker that can be opened, in order. */
  function Assigned(opens: Name -> bool, names: seq<Name>, who: seq<nat>, w: nat): seq<Name>
    requires |who| == |names|
  {
    if names == [] then []
    else (if who[0] == w && opens(names[0]) then [names[0]] else []) + Assigned(opens, names[1..], who[1..], w)
  }

  lemma Goes(opens: Name -> bool, s: State, a: Action, s': State, run: seq<Action>)
    requires Enabled(opens, s, a) && Apply(opens, s, a) == s' && Schedule(opens, s', run)
    ensures Schedule(opens, s, [a] + run) && Exec(opens, s, [a] + run) == Exec(opens, s', run)
  {
    hide Enabled, Apply;
    assert ([a] + run)[1..] == run;
  }

  lemma {:induction false} Continues(opens: Name -> bool, s: State, a: seq<Action>, b: seq<Action>)
    requires Schedule(opens, s, a) && Schedule(opens, Exec(opens, s, a), b)
    ensures Schedule(opens, s, a + b) && Exec(opens, s, a + b) == Exec(opens, Exec(opens, s, a), b)
    decreases a
  {
    hide Enabled, Apply;
    if a == [] {
      assert a + b == b;
    } else {
      assert (a + b)[1..] == a[1..] + b;
      Continues(opens, Apply(opens, s, a[0]), a[1..], b);
    }
  }

  lemma Stays(opens: Name -> bool, s: State)
    ensures Schedule(opens, s, []) && Exec(opens, s, []) == s
  {
  }

  /** The workers from `w` on are in one phase, the others in another. */
  ghost predicate Phases(s: State, w: nat, before: Phase, after: Phase) {
    && w <= |s.workers| == |s.shards|
    && (forall v :: 0 <= v < w ==> s.workers[v].phase == before)
    && (forall v :: w <= v < |s.workers| ==> s.workers[v].phase == after)
  }

  lemma {:induction false} AllStart(opens: Name -> bool, s: State, w: nat) returns (run: seq<Action>)
    requires Phases(s, w, Ready, NotStarted)
    ensures Schedule(opens, s, run)
    ensures var s' := Exec(opens, s, run);
            Phases(s', |s.workers|, Ready, Ready) && |s'.workers| == |s.workers|
            && s' == s.(workers := s'.workers)
    decreases |s.workers| - w
  {
    hide Exec, Schedule;
    Stays(opens, s);
    run := [];
    if w < |s.workers| {
      var s' := Apply(opens, s, Start(w));
      var rest := AllStart(opens, s', w + 1);
      Goes(opens, s, Start(w), s', rest);
      run := [Start(w)] + rest;
    }
  }

  /** One name goes through the channel to this worker. */
  lemma OneName(opens: Name -> bool, s: State, w: nat) returns (run: seq<Action>)
    requires Phases(s, |s.workers|, Ready, Ready) && w < |s.workers| && s.pending != [] && s.sent == []
    ensures Schedule(opens, s, run)
    ensures var s' := Exec(opens, s, run);
            && Phases(s', |s.workers|, Ready, Ready) && |s'.workers| == |s.workers|
            && s'.pending == s.pending[1..] && s'.sent == [] && s'.closed == s.closed && s'.out == s.out
            && s'.shards == if opens(s.pending[0]) then s.shards[w := s.shards[w] + [s.pending[0]]] else s.shards
  {
    hide Exec, Schedule;
    var name := s.pending[0];
    var a := Apply(opens, s, Send);
    assert a.sent == [name] && [name][1..] == [];
    var b := Apply(opens, a, Receive(w));
    var last := if opens(name) then Add(w) else Skip(w);
    var c := Apply(opens, b, last);
    Stays(opens, c);
    Goes(opens, b, last, c, []);
    Goes(opens, a, Receive(w), b, [last] + []);
    Goes(opens, s, Send, a, [Receive(w)] + ([last] + []));
    run := [Send] + ([Receive(w)] + ([last] + []));
  }

  lemma {:induction false} Distribute(opens: Name -> bool, s: State, who: seq<nat>) returns (run: seq<Action>)
    requires Phases(s, |s.workers|, Ready, Ready) && s.sent == [] && |who| == |s.pending|
    requires forall i :: 0 <= i < |who| ==> who[i] < |s.workers|
    ensures Schedule(opens, s, run)
    ensures var s' := Exec(opens, s, run);
            && Phases(s', |s.workers|, Ready, Ready) && |s'.workers| == |s.workers|
            && s'.pending == [] && s'.sent == [] && s'.closed == s.closed && s'.out == s.out
            && forall w :: 0 <= w < |s.workers| ==> s'.shards[w] == s.shards[w] + Assigned(opens, s.pending, who, w)
    decreases who
  {
    hide Exec, Schedule, Assigned;
    Stays(opens, s);
    run := [];
    if who != [] {
      var one := OneName(opens, s, who[0]);
      var s' := Exec(opens, s, one);
      var rest := Distribute(opens, s', who[1..]);
      Continues(opens, s, one, rest);
      run := one + rest;
      forall w | 0 <= w < |s.workers|
        ensures s'.shards[w] + Assigned(opens, s'.pending, who[1..], w)
             == s.shards[w] + Assigned(opens, s.pending, who, w)
      {
        AssignedStep(opens, s, s'.shards, who, w);
      }
    } else {
      forall w | 0 <= w < |s.workers| ensures s.shards[w] + Assigned(opens, s.pending, who, w) == s.shards[w] {
        NothingAssigned(opens, who, w);
      }
    }
  }

  lemma AssignedStep(opens: Name -> bool, s: State, shards: seq<seq<Name>>, who: seq<nat>, w: nat)
    requires who != [] && |who| == |s.pending| && who[0] < |s.shards| && w < |s.shards|
    requires shards == if opens(s.pending[0]) then s.shards[who[0] := s.shards[who[0]] + [s.pending[0]]] else s.shards
    ensures shards[w] + Assigned(opens, s.pending[1..], who[1..], w) == s.shards[w] + Assigned(opens, s.pending, who, w)
  {
  }

  lemma NothingAssigned(opens: Name -> bool, who: seq<nat>, w: nat)
    requires who == []
    ensures Assigned(opens, [], who, w) == []
  {
  }

  lemma {:induction false} AllLeave(opens: Name -> bool, s: State, w: nat) returns (run: seq<Action>)
    requires Phases(s, w, Done, Ready) && s.closed && s.sent == [] && |s.out| == w
    ensures Schedule(opens, s, run) && Finished(Exec(opens, s, run)) && Exec(opens, s, run).shards == s.shards
    decreases |s.workers| - w
  {
    hide Exec, Schedule;
    Stays(opens, s);
    run := [];
    if w < |s.workers| {
      var a := Apply(opens, s, Leave(w));
      var b := Apply(opens, a, Report(w));
      var rest := AllLeave(opens, b, w + 1);
      Goes(opens, a, Report(w), b, rest);
      Goes(opens, s, Leave(w), a, [Report(w)] + rest);
      run := [Leave(w)] + ([Report(w)] + rest);
    }
  }

  /** For any assignment of the names to the workers there is a run in which each worker indexes the names assigned to
      it, in order: which shard a file ends up in is up to the schedule alone. */
  lemma AnyDistribution(opens: Name -> bool, names: seq<Name>, k: nat, who: seq<nat>) returns (run: seq<Action>)
    requires |who| == |names| && forall i :: 0 <= i < |who| ==> who[i] < k
    ensures Schedule(opens, Init(names, k), run)
    ensures var s := Exec(opens, Init(names, k), run);
            Finished(s) && |s.shards| == k && forall w :: 0 <= w < k ==> s.shards[w] == Assigned(opens, names, who, w)
  {
    hide Exec, Schedule;
    var start := AllStart(opens, Init(names, k), 0);
    var started := Exec(opens, Init(names, k), start);
    var spread := Distribute(opens, started, who);
    var done := Exec(opens, started, spread);
    var closed := Apply(opens, done, Close);
    var leave := AllLeave(opens, closed, 0);
    Goes(opens, done, Close, closed, leave);
    Continues(opens, started, spread, [Close] + leave);
    Continues(opens, Init(names, k), start, spread + ([Close] + leave));
    run := start + (spread + ([Close] + leave));
    forall w | 0 <= w < k ensures done.shards[w] == Assigned(opens, names, who, w) {
      assert [] + Assigned(opens, names, who, w) == Assigned(opens, names, who, w);
    }
  }

  // ----- the channel of names

  /** At any time at most a hundred names are in the channel. */
  lemma {:induction false} AtMostAHundred(opens: Name -> bool, s: State, run: seq<Action>)
    requires |s.sent| <= 100 && Schedule(opens, s, run)
    ensures |Exec(opens, s, run).sent| <= 100
    decreases run
  {
    if run != [] {
      AtMostAHundred(opens, Apply(opens, s, run[0]), run[1..]);
    }
  }

  /** And the producer can get that far before any worker starts. */
  lemma {:induction false} AHundredAhead(opens: Name -> bool, s: State, n: nat) returns (run: seq<Action>)
    requires n <= |s.pending| && |s.sent| + n <= 100
    ensures Schedule(opens, s, run) && |Exec(opens, s, run).sent| == |s.sent| + n
    decreases n
  {
    hide Exec, Schedule;
    Stays(opens, s);
    run := [];
    if n > 0 {
      var s' := Apply(opens, s, Send);
      var rest := AHundredAhead(opens, s', n - 1);
      Goes(opens, s, Send, s', rest);
      run := [Send] + rest;
    }
  }
}
