/** The front end's merge loop: results as they arrive, and what becomes of the repositories they report. */
module DoSearch {
  import opened Text
  import opened Repos
  import Merge
  import MT = MergeTheorems

  type Reports = map<string, Repo>

  ghost predicate Failed(m: Reports, key: string) {
    key in m && m[key].state == ERROR
  }

  /** One result's reports replace what is known, except that ERROR stays. */
  ghost function Absorb(known: Reports, reports: Reports): Reports {
    known + map key | key in reports && !Failed(known, key) :: reports[key]
  }

  ghost function AbsorbAll(rs: seq<Reports>): Reports {
    if rs == [] then map[] else Absorb(AbsorbAll(rs[..|rs| - 1]), rs[|rs| - 1])
  }

  /** The store afterwards: OK repositories are set, others deleted if so configured. */
  ghost predicate Stored(before: Store, updates: Reports, delete: bool, after: Store) {
    && (forall key :: key in updates && updates[key].state == OK ==> key in after && after[key] == updates[key])
    && (forall key :: key in updates && updates[key].state != OK && delete ==> key !in after)
    && (forall key :: key !in updates || (updates[key].state != OK && !delete) ==>
          (key in after <==> key in before) && (key in after ==> after[key] == before[key]))
  }

  /** The same as a function: every OK report is written, the keys of the others go if so configured. */
  function StoreAfter(before: Store, updates: Reports, delete: bool): Store {
    var dropped := if delete then set key | key in updates && updates[key].state != OK else {};
    (before - dropped) + map key | key in updates && updates[key].state == OK :: updates[key]
  }

  lemma StoredIsStoreAfter(before: Store, updates: Reports, delete: bool, after: Store)
    ensures Stored(before, updates, delete, after) <==> after == StoreAfter(before, updates, delete)
  {
    var s := StoreAfter(before, updates, delete);
    assert Stored(before, updates, delete, s);
    if Stored(before, updates, delete, after) {
      forall key ensures key in after <==> key in s {
      }
      forall key | key in after ensures after[key] == s[key] {
      }
    }
  }

  ghost function Views(arrivals: seq<Merge.SearchResult>): seq<MT.Result>
    reads arrivals
  {
    seq(|arrivals|, i requires 0 <= i < |arrivals| reads arrivals => MT.View(arrivals[i]))
  }

  ghost function ReportsOf(arrivals: seq<Merge.SearchResult>): seq<Reports>
    reads arrivals
  {
    seq(|arrivals|, i requires 0 <= i < |arrivals| reads arrivals => arrivals[i].repos)
  }

  ghost function ErrorsOf(arrivals: seq<Merge.SearchResult>): seq<map<string, string>>
    reads arrivals
  {
    seq(|arrivals|, i requires 0 <= i < |arrivals| reads arrivals => arrivals[i].errors)
  }

  ghost function GlobalErrorsOf(arrivals: seq<Merge.SearchResult>): seq<string>
    reads arrivals
  {
    seq(|arrivals|, i requires 0 <= i < |arrivals| reads arrivals => arrivals[i].error)
  }

  ghost function JoinAll(errors: seq<string>): string {
    if errors == [] then "" else Merge.JoinError(JoinAll(errors[..|errors| - 1]), errors[|errors| - 1])
  }

  /** The response has a global error exactly if some result merged has one. */
  lemma {:induction false} NoErrorIff(errors: seq<string>)
    ensures JoinAll(errors) == "" <==> forall i :: 0 <= i < |errors| ==> errors[i] == ""
  {
    if errors != [] {
      NoErrorIff(errors[..|errors| - 1]);
    }
  }

  /** The texts, each but the first after a line break. */
  ghost function OneBelowAnother(texts: seq<string>): string {
    if texts == [] then "" else if |texts| == 1 then texts[0] else texts[0] + "\n" + OneBelowAnother(texts[1..])
  }

  lemma {:induction false} BelowPush(texts: seq<string>, text: string)
    requires texts != []
    ensures OneBelowAnother(texts + [text]) == OneBelowAnother(texts) + "\n" + text
  {
    if |texts| == 1 {
      assert (texts + [text])[1..] == [text];
    } else {
      BelowPush(texts[1..], text);
      assert (texts + [text])[1..] == texts[1..] + [text];
    }
  }

  /** It is all errors from the first that is not empty on, one below another, empty ones included. */
  lemma {:induction false} JoinAllIs(errors: seq<string>, k: nat)
    requires k < |errors| && errors[k] != "" && forall i :: 0 <= i < k ==> errors[i] == ""
    ensures JoinAll(errors) == OneBelowAnother(errors[k..])
    decreases |errors|
  {
    var init, last := errors[..|errors| - 1], errors[|errors| - 1];
    if k == |init| {
      NoErrorIff(init);
      assert errors[k..] == [last];
    } else {
      JoinAllIs(init, k);
      NoErrorIff(init);
      BelowPush(init[k..], last);
      assert errors[k..] == init[k..] + [last];
    }
  }

  lemma JoinStep(errors: seq<string>, i: nat)
    requires i < |errors|
    ensures JoinAll(errors[..i + 1]) == Merge.JoinError(JoinAll(errors[..i]), errors[i])
  {
    assert errors[..i + 1][..i] == errors[..i];
  }

  /** Maps put together, later ones replacing entries of earlier ones. */
  ghost function PlusAll<V>(ms: seq<map<string, V>>): map<string, V> {
    if ms == [] then map[] else PlusAll(ms[..|ms| - 1]) + ms[|ms| - 1]
  }

  /** No key is lost, and none comes from nowhere. */
  lemma {:induction false} PlusAllKeys<V>(ms: seq<map<string, V>>, key: string)
    ensures key in PlusAll(ms) <==> exists i :: 0 <= i < |ms| && key in ms[i]
  {
    if ms != [] {
      var init := ms[..|ms| - 1];
      PlusAllKeys(init, key);
      if i :| 0 <= i < |init| && key in init[i] {
        assert key in ms[i];
      }
    }
  }

  /** Of several entries for a key the last one stays. */
  lemma {:induction false} PlusAllLast<V>(ms: seq<map<string, V>>, key: string, i: nat)
    requires i < |ms| && key in ms[i] && forall j :: i < j < |ms| ==> key !in ms[j]
    ensures key in PlusAll(ms) && PlusAll(ms)[key] == ms[i][key]
  {
    if i < |ms| - 1 {
      PlusAllLast(ms[..|ms| - 1], key, i);
    }
  }

  /** A search without limit never has enough. */
  predicate Enough(max: nat, num: nat) {
    max > 0 && num >= max
  }

  class SearchServer {
    var repos: Store
    const deleteRepoOnError: bool

    constructor (repos: Store, deleteRepoOnError: bool)
      ensures this.repos == repos && this.deleteRepoOnError == deleteRepoOnError
    {
      this.repos, this.deleteRepoOnError := repos, deleteRepoOnError;
    }

    /** Looks at the reports of one result, in any order. */
    method Note(known0: Reports, reports: Reports) returns (known: Reports)
      ensures known == Absorb(known0, reports)
    {
      known := known0;
      var todo := reports.Keys;
      while todo != {}
        invariant todo <= reports.Keys
        invariant known == known0 + map key | key in reports && key !in todo && !Failed(known0, key) :: reports[key]
        decreases todo
      {
        var key :| key in todo;
        todo := todo - {key};
        if key in known && known[key].state == ERROR {
          continue;
        }
        known := known[key := reports[key]];
      }
    }

    /** Applies the final reports to the store, in any order. */
    method Apply(updates: Reports)
      modifies this`repos
      ensures Stored(old(repos), updates, deleteRepoOnError, repos)
    {
      var todo := updates.Keys;
      while todo != {}
        invariant todo <= updates.Keys
        invariant Stored(old(repos), updates - todo, deleteRepoOnError, repos)
        decreases todo
      {
        var key :| key in todo;
        ghost var done := updates - todo;
        todo := todo - {key};
        assert updates - todo == done[key := updates[key]];
        if updates[key].state == OK {
          repos := repos[key := updates[key]];
        } else if deleteRepoOnError {
          repos := repos - {key};
        }
      }
      assert updates - {} == updates;
    }

    /** Merges results in the order they arrive until there are enough matches, then updates the store. */
    method Search(pattern: string, maxMatches: nat, arrivals: seq<Merge.SearchResult>)
      returns (resp: Merge.SearchResult, merged: nat, invalid: bool)
      modifies this`repos
      ensures fresh(resp) && invalid == (|pattern| < 3) && merged <= |arrivals|
      ensures MergedUpTo(resp, Views(arrivals), maxMatches, merged)
      ensures resp.errors == PlusAll(ErrorsOf(arrivals)[..merged])
      ensures resp.repos == PlusAll(ReportsOf(arrivals)[..merged])
      ensures !invalid ==> resp.error == JoinAll(GlobalErrorsOf(arrivals)[..merged])
      ensures invalid ==> resp.error == "value_error"
      ensures Stored(old(repos), AbsorbAll(ReportsOf(arrivals)[..merged]), deleteRepoOnError, repos)
      ensures invalid ==> merged == 0
      ensures !invalid && maxMatches == 0 ==> merged == |arrivals|
      ensures !invalid && maxMatches > 0 ==> merged == |arrivals| || resp.numMatches >= maxMatches
      ensures maxMatches > 0 ==> forall j :: 0 < j < merged ==> MT.MergeAll(Views(arrivals)[..j]).num < maxMatches
      ensures resp.numMatches == MT.MergeAll(Views(arrivals)[..merged]).num
    {
      hide MergedUpTo, AbsorbAll, PlusAll, JoinAll, Stored, MT.MergeAll, MT.Merged, MT.View, Merge.Leaves, Merge.Tidy;
      hide Views, ReportsOf, ErrorsOf, GlobalErrorsOf, Enough;
      SameSizes(arrivals);
      resp := new Merge.SearchResult();
      resp.maxMatches := maxMatches;
      invalid := |pattern| < 3;
      if invalid {
        resp.error := "value_error";
      }
      merged := 0;
      ghost var views, reports, errors := Views(arrivals), ReportsOf(arrivals), ErrorsOf(arrivals);
      ghost var globals := GlobalErrorsOf(arrivals);
      var updates: Reports := map[];
      NothingMerged(resp, views, reports, maxMatches);
      NothingAdded(reports);
      NothingAdded(errors);
      NothingJoined(globals);
      var enough := false;
      while !invalid && merged < |arrivals| && !enough
        invariant merged <= |arrivals| && fresh(resp) && resp.maxMatches == maxMatches
        invariant enough == (0 < merged && Enough(maxMatches, resp.numMatches))
        invariant MergedUpTo(resp, views, maxMatches, merged)
        invariant updates == AbsorbAll(reports[..merged])
        invariant resp.errors == PlusAll(errors[..merged]) && resp.repos == PlusAll(reports[..merged])
        invariant if invalid then resp.error == "value_error" else resp.error == JoinAll(globals[..merged])
        invariant repos == old(repos) && (invalid ==> merged == 0)
        invariant Views(arrivals) == views && ReportsOf(arrivals) == reports
        invariant ErrorsOf(arrivals) == errors && GlobalErrorsOf(arrivals) == globals
        decreases |arrivals| - merged
      {
        updates, enough := MergeOne(resp, arrivals, updates, maxMatches, merged);
        merged := merged + 1;
      }
      StopsInNumbers(resp, views, maxMatches, merged);
      EnoughMeans(maxMatches, resp.numMatches);
      Apply(updates);
    }

    /** One arrival: its reports are noted, its matches merged. */
    method MergeOne(resp: Merge.SearchResult, arrivals: seq<Merge.SearchResult>, updates0: Reports, maxMatches: nat,
                    i: nat)
      returns (updates: Reports, enough: bool)
      requires i < |arrivals| && resp !in arrivals && resp.maxMatches == maxMatches
      requires MergedUpTo(resp, Views(arrivals), maxMatches, i) && !(0 < i && Enough(maxMatches, resp.numMatches))
      requires updates0 == AbsorbAll(ReportsOf(arrivals)[..i])
      requires resp.errors == PlusAll(ErrorsOf(arrivals)[..i]) && resp.repos == PlusAll(ReportsOf(arrivals)[..i])
      requires resp.error == JoinAll(GlobalErrorsOf(arrivals)[..i])
      modifies resp`matches, resp`numMatches, resp`errors, resp`repos, resp`error
      ensures MergedUpTo(resp, Views(arrivals), maxMatches, i + 1)
      ensures updates == AbsorbAll(ReportsOf(arrivals)[..i + 1])
      ensures resp.errors == PlusAll(ErrorsOf(arrivals)[..i + 1])
      ensures resp.repos == PlusAll(ReportsOf(arrivals)[..i + 1])
      ensures resp.error == JoinAll(GlobalErrorsOf(arrivals)[..i + 1])
      ensures enough == Enough(maxMatches, resp.numMatches)
    {
      hide Merge.Leaves, Merge.Tidy, Absorb, MT.Merged, Failed, PlusAll, JoinAll, Merge.JoinError;
      hide Views, ReportsOf, ErrorsOf, GlobalErrorsOf;
      SnapshotAt(arrivals, i);
      PrefixStep(Views(arrivals), ReportsOf(arrivals), i);
      PlusStep(ReportsOf(arrivals), i);
      PlusStep(ErrorsOf(arrivals), i);
      JoinStep(GlobalErrorsOf(arrivals), i);
      updates := Note(updates0, arrivals[i].repos);
      UpdateResponse(resp, arrivals, i);
      enough := resp.EnoughResults();
    }
  }

  lemma SnapshotAt(arrivals: seq<Merge.SearchResult>, i: nat)
    requires i < |arrivals|
    ensures |Views(arrivals)| == |ReportsOf(arrivals)| == |ErrorsOf(arrivals)| == |GlobalErrorsOf(arrivals)|
            == |arrivals|
    ensures Views(arrivals)[i] == MT.View(arrivals[i]) && ReportsOf(arrivals)[i] == arrivals[i].repos
    ensures ErrorsOf(arrivals)[i] == arrivals[i].errors && GlobalErrorsOf(arrivals)[i] == arrivals[i].error
  {
  }

  /** Merging into the response leaves the results that arrived as they are. */
  method UpdateResponse(resp: Merge.SearchResult, arrivals: seq<Merge.SearchResult>, i: nat)
    requires i < |arrivals| && resp !in arrivals && Merge.Tidy(resp.matches)
    modifies resp`matches, resp`numMatches, resp`errors, resp`repos, resp`error
    ensures MT.View(resp) == MT.Merged(old(MT.View(resp)), old(MT.View(arrivals[i]))) && Merge.Tidy(resp.matches)
    ensures resp.errors == old(resp.errors) + old(arrivals[i].errors)
    ensures resp.repos == old(resp.repos) + old(arrivals[i].repos)
    ensures resp.error == Merge.JoinError(old(resp.error), old(arrivals[i].error))
    ensures Views(arrivals) == old(Views(arrivals)) && ReportsOf(arrivals) == old(ReportsOf(arrivals))
    ensures ErrorsOf(arrivals) == old(ErrorsOf(arrivals))
    ensures GlobalErrorsOf(arrivals) == old(GlobalErrorsOf(arrivals))
  {
    hide Merge.Leaves, Merge.Tidy, MT.Merged, Merge.JoinError, Views, ReportsOf, ErrorsOf, GlobalErrorsOf;
    MT.UpdateView(resp, arrivals[i]);
  }

  /** `resp` is the merge of the first `n` results, and no fewer of them were enough. */
  ghost predicate MergedUpTo(resp: Merge.SearchResult, views: seq<MT.Result>, maxMatches: nat, n: nat)
    requires n <= |views|
    reads resp
  {
    && MT.View(resp) == MT.MergeAll(views[..n]) && Merge.Tidy(resp.matches)
    && forall j :: 0 < j < n ==> !Enough(maxMatches, MT.MergeAll(views[..j]).num)
  }

  lemma SameSizes(arrivals: seq<Merge.SearchResult>)
    ensures |Views(arrivals)| == |ReportsOf(arrivals)| == |ErrorsOf(arrivals)| == |GlobalErrorsOf(arrivals)|
            == |arrivals|
  {
  }

  lemma EnoughMeans(maxMatches: nat, num: nat)
    ensures Enough(maxMatches, num) <==> maxMatches > 0 && num >= maxMatches
  {
  }

  lemma StopsInNumbers(resp: Merge.SearchResult, views: seq<MT.Result>, maxMatches: nat, n: nat)
    requires n <= |views| && MergedUpTo(resp, views, maxMatches, n)
    ensures resp.numMatches == MT.MergeAll(views[..n]).num
    ensures maxMatches > 0 ==> forall j :: 0 < j < n ==> MT.MergeAll(views[..j]).num < maxMatches
  {
    hide MT.MergeAll, Merge.Leaves, Merge.Tidy;
  }

  lemma PrefixStep(views: seq<MT.Result>, reports: seq<Reports>, i: nat)
    requires i < |views| == |reports|
    ensures MT.MergeAll(views[..i + 1]) == MT.Merged(MT.MergeAll(views[..i]), views[i])
    ensures AbsorbAll(reports[..i + 1]) == Absorb(AbsorbAll(reports[..i]), reports[i])
  {
    hide MT.Merged, Absorb;
    assert views[..i + 1][..i] == views[..i] && reports[..i + 1][..i] == reports[..i];
  }

  lemma PlusStep<V>(ms: seq<map<string, V>>, i: nat)
    requires i < |ms|
    ensures PlusAll(ms[..i + 1]) == PlusAll(ms[..i]) + ms[i]
  {
    assert ms[..i + 1][..i] == ms[..i];
  }

  lemma NothingJoined(errors: seq<string>)
    ensures JoinAll(errors[..0]) == ""
  {
  }

  lemma NothingAdded<V>(ms: seq<map<string, V>>)
    ensures PlusAll(ms[..0]) == map[]
  {
  }

  lemma NothingMerged(resp: Merge.SearchResult, views: seq<MT.Result>, reports: seq<Reports>, maxMatches: nat)
    requires resp.matches == map[] && resp.numMatches == 0
    ensures MergedUpTo(resp, views, maxMatches, 0)
    ensures AbsorbAll(reports[..0]) == map[]
  {
  }

  // ----- what the order of arrival decides

  ghost predicate SomeFailed(rs: seq<Reports>, key: string) {
    exists i :: 0 <= i < |rs| && Failed(rs[i], key)
  }

  ghost predicate SomeReport(rs: seq<Reports>, key: string) {
    exists i :: 0 <= i < |rs| && key in rs[i]
  }

  lemma AbsorbAt(known: Reports, reports: Reports, key: string)
    ensures key in Absorb(known, reports) <==> key in known || key in reports
    ensures key in Absorb(known, reports) ==>
              Absorb(known, reports)[key] == if key in reports && !Failed(known, key) then reports[key] else known[key]
  {
  }

  /** A repository ends up failed exactly when some merged result reported it failed, in any order and whatever
      other states are reported. */
  lemma {:induction false} FailedIffReported(rs: seq<Reports>, key: string)
    ensures Failed(AbsorbAll(rs), key) <==> SomeFailed(rs, key)
    ensures key in AbsorbAll(rs) <==> SomeReport(rs, key)
  {
    if rs != [] {
      var init, last := rs[..|rs| - 1], rs[|rs| - 1];
      FailedIffReported(init, key);
      AbsorbAt(AbsorbAll(init), last, key);
      InitOrLast(rs, key);
    }
  }

  lemma InitOrLast(rs: seq<Reports>, key: string)
    requires rs != []
    ensures SomeFailed(rs, key) <==> SomeFailed(rs[..|rs| - 1], key) || Failed(rs[|rs| - 1], key)
    ensures SomeReport(rs, key) <==> SomeReport(rs[..|rs| - 1], key) || key in rs[|rs| - 1]
  {
  }

  /** Without a failure, the last report counts. */
  lemma {:induction false} LastReportCounts(rs: seq<Reports>, key: string, i: nat)
    requires !SomeFailed(rs, key) && i < |rs| && key in rs[i]
    requires forall j :: i < j < |rs| ==> key !in rs[j]
    ensures key in AbsorbAll(rs) && AbsorbAll(rs)[key] == rs[i][key]
  {
    var init, last := rs[..|rs| - 1], rs[|rs| - 1];
    InitOrLast(rs, key);
    AbsorbAt(AbsorbAll(init), last, key);
    if i == |rs| - 1 {
      FailedIffReported(init, key);
    } else {
      LastReportCounts(init, key, i);
    }
  }

  /** Some last report exists if there is any. */
  lemma {:induction false} FindLast(rs: seq<Reports>, key: string) returns (i: nat)
    requires SomeReport(rs, key)
    ensures i < |rs| && key in rs[i] && forall j :: i < j < |rs| ==> key !in rs[j]
  {
    if key in rs[|rs| - 1] {
      i := |rs| - 1;
    } else {
      InitOrLast(rs, key);
      i := FindLast(rs[..|rs| - 1], key);
    }
  }

  ghost predicate IsStored(rs: seq<Reports>, key: string) {
    key in AbsorbAll(rs) && AbsorbAll(rs)[key].state == OK
  }

  ghost predicate ReportsState(rs: seq<Reports>, key: string, ok: bool) {
    exists i :: 0 <= i < |rs| && key in rs[i] && (rs[i][key].state == OK <==> ok)
  }

  /** Not failed, but reported both as OK and as something else (being indexed, say). */
  ghost predicate Ambiguous(rs: seq<Reports>, key: string) {
    !SomeFailed(rs, key) && ReportsState(rs, key, true) && ReportsState(rs, key, false)
  }

  /** Unless its reports are ambiguous, a reported repository is stored exactly when no report is other than OK. */
  lemma StoredIff(rs: seq<Reports>, key: string)
    requires SomeReport(rs, key) && !Ambiguous(rs, key)
    ensures IsStored(rs, key) <==> !ReportsState(rs, key, false)
  {
    FailedIffReported(rs, key);
    if SomeFailed(rs, key) {
      var i :| 0 <= i < |rs| && Failed(rs[i], key);
      assert ReportsState(rs, key, false);
    } else {
      var i := FindLast(rs, key);
      LastReportCounts(rs, key, i);
      assert ReportsState(rs, key, rs[i][key].state == OK);
    }
  }

  /** What is reported depends on which results there are, not on their order or number. */
  lemma SameResults(rs: seq<Reports>, qs: seq<Reports>, key: string)
    requires forall r :: r in rs ==> r in qs
    ensures SomeFailed(rs, key) ==> SomeFailed(qs, key)
    ensures SomeReport(rs, key) ==> SomeReport(qs, key)
    ensures forall ok :: ReportsState(rs, key, ok) ==> ReportsState(qs, key, ok)
  {
    hide Failed;
    forall i | 0 <= i < |rs| ensures exists j :: 0 <= j < |qs| && qs[j] == rs[i] {
      assert rs[i] in qs;
    }
  }

  lemma SameBag(rs: seq<Reports>, qs: seq<Reports>, key: string)
    requires multiset(rs) == multiset(qs)
    ensures SomeFailed(rs, key) ==> SomeFailed(qs, key)
    ensures SomeReport(rs, key) ==> SomeReport(qs, key)
    ensures forall ok :: ReportsState(rs, key, ok) ==> ReportsState(qs, key, ok)
  {
    hide Failed;
    forall r | r in rs ensures r in qs {
      assert r in multiset(qs);
    }
    SameResults(rs, qs, key);
  }

  /** The same results with the i-th arriving last. */
  lemma MoveLast(rs: seq<Reports>, i: nat) returns (qs: seq<Reports>)
    requires i < |rs|
    ensures multiset(qs) == multiset(rs) && qs != [] && qs[|qs| - 1] == rs[i]
  {
    qs := rs[..i] + rs[i + 1..] + [rs[i]];
    assert rs == rs[..i] + [rs[i]] + rs[i + 1..];
  }

  /** Whether a repository is stored depends only on which results were merged, not on their order, exactly
      when its reports are not ambiguous. (With the states OK and ERROR alone they never are.) */
  lemma OrderIrrelevantIff(rs: seq<Reports>, key: string)
    ensures (forall qs :: multiset(qs) == multiset(rs) ==> (IsStored(qs, key) <==> IsStored(rs, key)))
            <==> !Ambiguous(rs, key)
  {
    if Ambiguous(rs, key) {
      var i :| 0 <= i < |rs| && key in rs[i] && rs[i][key].state == OK;
      var j :| 0 <= j < |rs| && key in rs[j] && rs[j][key].state != OK;
      var ps := MoveLast(rs, i);
      var qs := MoveLast(rs, j);
      SameBag(ps, rs, key);
      SameBag(qs, rs, key);
      LastReportCounts(ps, key, |ps| - 1);
      LastReportCounts(qs, key, |qs| - 1);
      assert IsStored(ps, key) && !IsStored(qs, key);
      assert multiset(ps) == multiset(rs) && multiset(qs) == multiset(rs);
    } else {
      forall qs | multiset(qs) == multiset(rs)
        ensures IsStored(qs, key) <==> IsStored(rs, key)
      {
        SameBag(qs, rs, key);
        SameBag(rs, qs, key);
        FailedIffReported(qs, key);
        FailedIffReported(rs, key);
        if SomeReport(rs, key) {
          StoredIff(qs, key);
          StoredIff(rs, key);
        }
      }
    }
  }

  /** With the states OK and ERROR alone, whether a key is stored, deleted or left alone depends only on which
      results there are, neither on their order nor on how often each arrives. */
  lemma OkOrErrorDecides(rs: seq<Reports>, qs: seq<Reports>, key: string)
    requires forall r :: r in rs <==> r in qs
    requires forall r: Reports, k :: r in rs && k in r ==> r[k].state == OK || r[k].state == ERROR
    ensures IsStored(rs, key) <==> IsStored(qs, key)
    ensures key in AbsorbAll(rs) <==> key in AbsorbAll(qs)
    ensures IsStored(rs, key) <==> SomeReport(rs, key) && !SomeFailed(rs, key)
  {
    StoredUnlessFailed(rs, key);
    StoredUnlessFailed(qs, key);
    FailedIffReported(rs, key);
    FailedIffReported(qs, key);
    SameResults(rs, qs, key);
    SameResults(qs, rs, key);
  }

  lemma StoredUnlessFailed(rs: seq<Reports>, key: string)
    requires forall r: Reports, k :: r in rs && k in r ==> r[k].state == OK || r[k].state == ERROR
    ensures IsStored(rs, key) <==> SomeReport(rs, key) && !SomeFailed(rs, key)
  {
    FailedIffReported(rs, key);
    if SomeReport(rs, key) && !SomeFailed(rs, key) {
      var i := FindLast(rs, key);
      LastReportCounts(rs, key, i);
      assert rs[i] in rs && !Failed(rs[i], key);
    }
  }
}
