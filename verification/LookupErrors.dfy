/** What names that cannot be looked up and directories that cannot be listed cost: which of the wanted files the
    scanner still collects. */
module LookupErrors {
  import opened Walk
  import opened WalkProofs
  import opened Scanner

  ghost predicate Before(a: string, b: string) {
    StrLeq(a, b) && a != b
  }

  /** No name that comes before this one in the directory fails to be looked up. */
  ghost predicate NoneMissingBefore(dir: Node, name: string)
    requires dir.Dir?
  {
    forall n :: Listed(dir.listing, n) && Before(n, name) ==> !Lookup(dir.listing, n).Missing?
  }

  /** On the way from a node to the place `q` below it, no directory has a failing name before the one taken. */
  ghost predicate Reachable(node: Node, q: Path)
    decreases |q|
  {
    q == [] || (
      && node.Dir? && Listed(node.listing, q[0]) && NoneMissingBefore(node, q[0])
      && Reachable(Lookup(node.listing, q[0]), q[1..]))
  }

  ghost predicate Reaches(node: Node, base: nat, e: Event) {
    base <= |e.path| && Reachable(node, e.path[base..])
  }

  /** The calls for places that can be reached from a node, itself `base` names below the root. */
  ghost function Reached(node: Node, base: nat, events: seq<Event>): seq<Event> {
    if events == [] then []
    else (if Reaches(node, base, events[0]) then [events[0]] else []) + Reached(node, base, events[1..])
  }

  lemma ReachedFirst(node: Node, base: nat, e: Event, rest: seq<Event>)
    ensures Reached(node, base, []) == []
    ensures Reached(node, base, [e] + rest)
         == (if Reaches(node, base, e) then [e] else []) + Reached(node, base, rest)
  {
    hide Reaches;
    assert ([e] + rest)[1..] == rest;
  }

  lemma {:induction false} ReachedConcat(node: Node, base: nat, a: seq<Event>, b: seq<Event>)
    ensures Reached(node, base, a + b) == Reached(node, base, a) + Reached(node, base, b)
  {
    hide Reached, Reaches;
    if a == [] {
      ReachedFirst(node, base, StatError([], ""), []);
      assert a + b == b;
    } else {
      var e, rest := a[0], a[1..];
      assert a == [e] + rest && a + b == [e] + (rest + b);
      ReachedFirst(node, base, e, rest);
      ReachedFirst(node, base, e, rest + b);
      ReachedConcat(node, base, rest, b);
    }
  }

  lemma {:induction false} ReachedNone(node: Node, base: nat, events: seq<Event>)
    requires forall e :: e in events ==> !Reaches(node, base, e)
    ensures Reached(node, base, events) == []
  {
    if events != [] {
      ReachedNone(node, base, events[1..]);
    }
  }

  /** Nothing is dropped exactly if everything can be reached. */
  lemma {:induction false} ReachedAll(node: Node, base: nat, events: seq<Event>)
    ensures |Reached(node, base, events)| <= |events|
    ensures |Reached(node, base, events)| == |events| <==> forall e :: e in events ==> Reaches(node, base, e)
    ensures (forall e :: e in events ==> Reaches(node, base, e)) ==> Reached(node, base, events) == events
  {
    hide Reaches;
    if events != [] {
      ReachedAll(node, base, events[1..]);
      assert forall e :: e in events <==> e == events[0] || e in events[1..];
    }
  }

  lemma ReachesChild(dir: Node, path: Path, name: string, e: Event)
    requires dir.Dir? && Listed(dir.listing, name) && NoneMissingBefore(dir, name) && path + [name] <= e.path
    ensures Reaches(dir, |path|, e) <==> Reaches(Lookup(dir.listing, name), |path| + 1, e)
  {
    assert (path + [name])[|path|] == name;
    assert e.path[|path|..][0] == name && e.path[|path|..][1..] == e.path[|path| + 1..];
  }

  lemma UnreachedAfter(dir: Node, path: Path, missing: string, e: Event)
    requires dir.Dir? && Listed(dir.listing, missing) && Lookup(dir.listing, missing).Missing?
    requires |path| < |e.path| && Before(missing, e.path[|path|])
    ensures !Reaches(dir, |path|, e)
  {
    assert e.path[|path|..][0] == e.path[|path|];
  }

  // ----- the order of the names

  lemma SortedBefore(dir: Node, names: seq<string>, i: nat)
    requires dir.Dir? && names == SortedNames(dir.listing) && i < |names|
    requires forall j :: 0 <= j < i ==> Listed(dir.listing, names[j]) && !Lookup(dir.listing, names[j]).Missing?
    ensures NoneMissingBefore(dir, names[i])
  {
    hide SortedNames, StrLeq;
    forall n | Listed(dir.listing, n) && Before(n, names[i])
      ensures !Lookup(dir.listing, n).Missing?
    {
      var l :| 0 <= l < |dir.listing| && dir.listing[l].name == n;
      assert NamesOf(dir.listing)[l] == n;
      assert n in multiset(names);
      var j :| 0 <= j < |names| && names[j] == n;
      StrLeqTotal(n, names[i]);
    }
  }

  lemma SortedAfter(names: seq<string>, i: nat, name: string)
    requires Sorted(names) && NoDup(names) && i < |names| && name in names[i + 1..]
    ensures Before(names[i], name)
  {
    hide StrLeq;
    var k :| 0 <= k < |names[i + 1..]| && names[i + 1..][k] == name;
    assert names[i + 1 + k] == name;
    assert names == names[..i] + [names[i]] + names[i + 1..];
    assert multiset(names) == multiset(names[..i]) + multiset{names[i]} + multiset(names[i + 1..]);
    assert multiset(names)[names[i]] <= 1;
    assert names[i] !in multiset(names[i + 1..]);
  }

  // ----- what is taken of a list of calls

  /** A call for a directory that is visited and cannot be listed. */
  ghost predicate Unlisted(excluded: Excludes, root: string, e: Event) {
    e.ListError? && Clean(excluded, root, e.path)
  }

  ghost predicate Wants(excluded: Excludes, root: string, e: Event) {
    e.Visit? && e.regular && Clean(excluded, root, e.path)
  }

  /** The wanted calls that can be reached from a node, up to the first directory reached that cannot be listed; and
      its error, if there is one. */
  ghost function Taken(excluded: Excludes, root: string, node: Node, base: nat, events: seq<Event>)
    : (seq<Event>, Signal)
  {
    if events == [] then ([], Continue)
    else if Reaches(node, base, events[0]) && Unlisted(excluded, root, events[0]) then ([], Fail(events[0].e))
    else
      var t := Taken(excluded, root, node, base, events[1..]);
      if Reaches(node, base, events[0]) && Wants(excluded, root, events[0]) then ([events[0]] + t.0, t.1) else t
  }

  lemma {:induction false} NeverSkips(excluded: Excludes, root: string, node: Node, base: nat, events: seq<Event>)
    ensures Taken(excluded, root, node, base, events).1 != SkipDir
  {
    hide Reaches, Unlisted, Wants;
    if events != [] {
      NeverSkips(excluded, root, node, base, events[1..]);
    }
  }

  ghost function Then(a: (seq<Event>, Signal), b: (seq<Event>, Signal)): (seq<Event>, Signal) {
    if a.1 == Continue then (a.0 + b.0, b.1) else a
  }

  lemma {:induction false} TakenConcat(excluded: Excludes, root: string, node: Node, base: nat, a: seq<Event>,
                                       b: seq<Event>)
    ensures Taken(excluded, root, node, base, a + b)
         == Then(Taken(excluded, root, node, base, a), Taken(excluded, root, node, base, b))
  {
    hide Reaches, Unlisted, Wants;
    if a == [] {
      assert a + b == b && [] + Taken(excluded, root, node, base, b).0 == Taken(excluded, root, node, base, b).0;
    } else {
      assert (a + b)[1..] == a[1..] + b;
      TakenConcat(excluded, root, node, base, a[1..], b);
      var t, u := Taken(excluded, root, node, base, a[1..]), Taken(excluded, root, node, base, b);
      assert [a[0]] + t.0 + u.0 == [a[0]] + (t.0 + u.0);
    }
  }

  lemma {:induction false} NoneTaken(excluded: Excludes, root: string, node: Node, base: nat, events: seq<Event>)
    requires forall e :: e in events ==>
               !Reaches(node, base, e) || !(Unlisted(excluded, root, e) || Wants(excluded, root, e))
    ensures Taken(excluded, root, node, base, events) == ([], Continue)
  {
    hide Reaches, Unlisted, Wants;
    if events != [] {
      NoneTaken(excluded, root, node, base, events[1..]);
    }
  }

  /** Below a name with none failing before it, what is taken from the directory is what is taken from the child. */
  lemma {:induction false} TakenChild(excluded: Excludes, root: string, dir: Node, path: Path, name: string,
                                      events: seq<Event>)
    requires dir.Dir? && Listed(dir.listing, name) && NoneMissingBefore(dir, name)
    requires AllUnder(events, path + [name])
    ensures Taken(excluded, root, dir, |path|, events)
         == Taken(excluded, root, Lookup(dir.listing, name), |path| + 1, events)
  {
    hide NoneMissingBefore, Reaches, Unlisted, Wants;
    if events != [] {
      ReachesChild(dir, path, name, events[0]);
      TakenChild(excluded, root, dir, path, name, events[1..]);
    }
  }

  // ----- the walk

  lemma ReachesSelf(node: Node, path: Path, e: Event)
    requires e.path == path
    ensures Reaches(node, |path|, e)
  {
    assert e.path[|path|..] == [];
  }

  /** The calls for one node alone. */
  lemma OneTaken(excluded: Excludes, root: string, path: Path, node: Node, e: Event)
    requires e.path == path
    ensures Taken(excluded, root, node, |path|, [e])
         == if Unlisted(excluded, root, e) then ([], Fail(e.e))
            else (if Wants(excluded, root, e) then [e] else [], Continue)
  {
    hide Reaches, Unlisted, Wants;
    ReachesSelf(node, path, e);
    assert [e][1..] == [] && [e] + [] == [e];
  }

  lemma ExcludedTaken(excluded: Excludes, root: string, path: Path, node: Node, events: seq<Event>)
    requires AllUnder(events, path) && excluded(Render(root, path))
    ensures Taken(excluded, root, node, |path|, events) == ([], Continue)
  {
    hide Render, Reaches, Taken;
    forall e | e in events ensures !Clean(excluded, root, e.path) {
      assert e.path[..|path|] == path;
    }
    NoneTaken(excluded, root, node, |path|, events);
  }

  lemma {:induction false} NodeTaken(excluded: Excludes, root: string, path: Path, node: Node, h: seq<Event>)
    requires !node.Missing? && DistinctNames(node) && ParentsClean(excluded, root, path)
    ensures var w := WalkNode(path, node, ScanCallback(excluded, root), h);
            var t := Taken(excluded, root, node, |path|, Preorder(path, node));
            w.1 == t.1 && Picks(excluded, root, w.0) == Picks(excluded, root, h) + Names(root, t.0)
    decreases node, 1, 0
  {
    hide SortedNames, Picks, Render, Taken, WalkNames, PreorderNames, Reaches;
    var visit := VisitOf(path, node);
    PicksPush(excluded, root, h, visit);
    OneTaken(excluded, root, path, node, visit);
    assert path[..|path|] == path;
    assert Clean(excluded, root, path) <==> !excluded(Render(root, path));
    if node.IsDir() && excluded(Render(root, path)) {
      PreorderUnder(path, node);
      ExcludedTaken(excluded, root, path, node, Preorder(path, node));
    } else if node.Dir? {
      var names := SortedNames(node.listing);
      SortedNamesListed(node.listing);
      NamesTaken(excluded, root, path, node, names, 0, h + [visit]);
      assert names[0..] == names;
      TakenConcat(excluded, root, node, |path|, [visit], PreorderNames(path, node, names));
    } else if node.Unreadable? {
      var error := ListError(path, node.e);
      PicksPush(excluded, root, h + [visit], error);
      OneTaken(excluded, root, path, node, error);
      TakenConcat(excluded, root, node, |path|, [visit], [error]);
      assert Preorder(path, node) == [visit] + [error];
    }
  }

  lemma {:induction false} NamesTaken(excluded: Excludes, root: string, path: Path, dir: Node, names: seq<string>,
                                      i: nat, h: seq<Event>)
    requires dir.Dir? && DistinctNames(dir) && Clean(excluded, root, path)
    requires names == SortedNames(dir.listing) && i <= |names| && forall n :: n in names ==> Listed(dir.listing, n)
    requires forall j :: 0 <= j < i ==> !Lookup(dir.listing, names[j]).Missing?
    ensures var w := WalkNames(path, dir, names[i..], ScanCallback(excluded, root), h);
            var t := Taken(excluded, root, dir, |path|, PreorderNames(path, dir, names[i..]));
            w.1 == t.1 && Picks(excluded, root, w.0) == Picks(excluded, root, h) + Names(root, t.0)
    decreases dir, 0, |names| - i
  {
    hide Preorder, Picks, Render, WalkNode, SortedNames, Taken, DistinctNames;
    if i == |names| {
      NoneTaken(excluded, root, dir, |path|, []);
    } else {
      var p, child := path + [names[i]], Lookup(dir.listing, names[i]);
      assert names[i..][0] == names[i] && names[i..][1..] == names[i + 1..];
      ChildSmaller(dir, names[i]);
      if child.Missing? {
        PicksPush(excluded, root, h, StatError(p, child.e));
        NothingTaken(excluded, root, path, dir, names, i);
      } else {
        ChildDistinct(dir, names[i]);
        CleanBelow(excluded, root, path, names[i]);
        NodeTaken(excluded, root, p, child, h);
        var w := WalkNode(p, child, ScanCallback(excluded, root), h);
        SplitTaken(excluded, root, path, dir, names, i);
        NeverSkips(excluded, root, child, |p|, Preorder(p, child));
        if w.1 == Continue {
          NamesTaken(excluded, root, path, dir, names, i + 1, w.0);
          NamesConcat(root, Taken(excluded, root, child, |p|, Preorder(p, child)).0,
                      Taken(excluded, root, dir, |path|, PreorderNames(path, dir, names[i + 1..])).0);
        }
      }
    }
  }

  /** What is taken from a name on is what is taken below it and, unless that ends the walk, from the next on. */
  lemma SplitTaken(excluded: Excludes, root: string, path: Path, dir: Node, names: seq<string>, i: nat)
    requires dir.Dir? && names == SortedNames(dir.listing) && i < |names|
    requires forall n :: n in names ==> Listed(dir.listing, n)
    requires forall j :: 0 <= j < i ==> !Lookup(dir.listing, names[j]).Missing?
    ensures var child, p := Lookup(dir.listing, names[i]), path + [names[i]];
            Taken(excluded, root, dir, |path|, PreorderNames(path, dir, names[i..]))
            == Then(Taken(excluded, root, child, |p|, Preorder(p, child)),
                    Taken(excluded, root, dir, |path|, PreorderNames(path, dir, names[i + 1..])))
  {
    hide Preorder, SortedNames, Taken, NoneMissingBefore;
    var p, child := path + [names[i]], Lookup(dir.listing, names[i]);
    assert names[i..][0] == names[i] && names[i..][1..] == names[i + 1..];
    TakenConcat(excluded, root, dir, |path|, Preorder(p, child), PreorderNames(path, dir, names[i + 1..]));
    SortedBefore(dir, names, i);
    PreorderUnder(p, child);
    TakenChild(excluded, root, dir, path, names[i], Preorder(p, child));
  }

  /** From a failing name on, nothing is taken. */
  lemma NothingTaken(excluded: Excludes, root: string, path: Path, dir: Node, names: seq<string>, i: nat)
    requires dir.Dir? && DistinctNames(dir) && names == SortedNames(dir.listing) && i < |names|
    requires (forall n :: n in names ==> Listed(dir.listing, n)) && Lookup(dir.listing, names[i]).Missing?
    ensures Taken(excluded, root, dir, |path|, PreorderNames(path, dir, names[i..])) == ([], Continue)
  {
    hide SortedNames, StrLeq, Taken, Reaches, PreorderNames, DistinctNames;
    var e0 := StatError(path + [names[i]], Lookup(dir.listing, names[i]).e);
    var tail := PreorderNames(path, dir, names[i + 1..]);
    MissingFirst(path, dir, names, i);
    SortedNamesDiffer(dir);
    PreorderNamesUnder(path, dir, names[i + 1..]);
    forall e | e in tail ensures !Reaches(dir, |path|, e) {
      SortedAfter(names, i, e.path[|path|]);
      UnreachedAfter(dir, path, names[i], e);
    }
    NoneTaken(excluded, root, dir, |path|, [e0] + tail);
  }

  lemma SortedNamesDiffer(dir: Node)
    requires dir.Dir? && DistinctNames(dir)
    ensures NoDup(SortedNames(dir.listing))
  {
    hide SortedNames;
  }

  lemma MissingFirst(path: Path, dir: Node, names: seq<string>, i: nat)
    requires dir.Dir? && i < |names| && forall n :: n in names ==> Listed(dir.listing, n)
    requires Lookup(dir.listing, names[i]).Missing?
    ensures PreorderNames(path, dir, names[i..])
         == [StatError(path + [names[i]], Lookup(dir.listing, names[i]).e)] + PreorderNames(path, dir, names[i + 1..])
  {
    assert names[i..][0] == names[i] && names[i..][1..] == names[i + 1..];
  }

  // ----- the scanner on any tree

  /** The walk ends at a directory that is reached, not excluded, and cannot be listed. */
  ghost predicate Stops(excluded: Excludes, root: string, node: Node, e: Event) {
    Unlisted(excluded, root, e) && Reachable(node, e.path)
  }

  /** How many calls there are before the first such directory. */
  ghost function FirstStop(excluded: Excludes, root: string, node: Node, events: seq<Event>): (n: nat)
    ensures n <= |events| && forall i :: 0 <= i < n ==> !Stops(excluded, root, node, events[i])
    ensures n < |events| ==> Stops(excluded, root, node, events[n])
  {
    if events == [] || Stops(excluded, root, node, events[0]) then 0
    else 1 + FirstStop(excluded, root, node, events[1..])
  }

  lemma ReachesWhole(node: Node, e: Event)
    ensures Reaches(node, 0, e) <==> Reachable(node, e.path)
  {
    assert e.path[0..] == e.path;
  }

  lemma {:induction false} TakenIs(excluded: Excludes, root: string, node: Node, events: seq<Event>)
    ensures var n := FirstStop(excluded, root, node, events);
            var t := Taken(excluded, root, node, 0, events);
            && t.0 == Reached(node, 0, Wanted(excluded, root, events[..n]))
            && t.1 == if n < |events| then Fail(events[n].e) else Continue
  {
    hide Reaches, Reachable, Clean;
    if events == [] {
      ReachedNone(node, 0, []);
    } else {
      var e, rest := events[0], events[1..];
      ReachesWhole(node, e);
      if Stops(excluded, root, node, e) {
        ReachedNone(node, 0, []);
      } else {
        var n := FirstStop(excluded, root, node, rest);
        TakenIs(excluded, root, node, rest);
        assert events[..n + 1][0] == e && events[..n + 1][1..] == rest[..n];
        assert [] + Wanted(excluded, root, rest[..n]) == Wanted(excluded, root, rest[..n]);
        ReachedFirst(node, 0, e, Wanted(excluded, root, rest[..n]));
      }
    }
  }

  /** On any tree: of what comes before the first directory reached that cannot be listed, the wanted files are
      collected, in preorder, for which no name that comes before theirs in their directory, or before the name of a
      directory they are in, fails to be looked up. The others are lost. The error returned is that directory's, or
      that of a root that is not there; names that fail are not reported. */
  lemma LookupErrorLosesRest(excluded: Excludes, root: string, node: Node)
    requires DistinctNames(node)
    ensures var w := WalkRoot(node, ScanCallback(excluded, root));
            var events := Preorder([], node);
            var n := FirstStop(excluded, root, node, events);
            && Picks(excluded, root, w.0)
               == Names(root, Reached(node, 0, Wanted(excluded, root, events[..n])))
            && w.1 == if node.Missing? then Fail(node.e) else if n < |events| then Fail(events[n].e) else Continue
  {
    hide Clean, Reached, Reaches, Reachable;
    if node.Missing? {
      MissingRoot(excluded, root, node);
    } else {
      hide Wanted, FirstStop, Picks, Preorder, WalkNode, Names;
      NodeTaken(excluded, root, [], node, []);
      NoPicks(excluded, root);
      TakenIs(excluded, root, node, Preorder([], node));
    }
  }

  lemma NoPicks(excluded: Excludes, root: string)
    ensures Picks(excluded, root, []) == []
  {
  }

  lemma MissingRoot(excluded: Excludes, root: string, node: Node)
    requires node.Missing?
    ensures var w := WalkRoot(node, ScanCallback(excluded, root));
            var n := FirstStop(excluded, root, node, Preorder([], node));
            && Picks(excluded, root, w.0) == [] && w.1 == Fail(node.e)
            && Reached(node, 0, Wanted(excluded, root, Preorder([], node)[..n])) == []
  {
    hide Clean, Reachable, Reaches;
    var e := StatError([], node.e);
    assert Preorder([], node) == [e];
    PicksPush(excluded, root, [], e);
    assert [] + [e] == [e];
    WantedOne(excluded, root, e);
    ReachedNone(node, 0, []);
    assert [e][..1] == [e] && [e][..0] == [];
  }

  /** Everything wanted is collected exactly if each wanted file has no such failing name before it and comes before
      the first directory reached that cannot be listed. */
  lemma NothingLostIff(excluded: Excludes, root: string, node: Node)
    requires DistinctNames(node)
    ensures var events := Preorder([], node);
            var wanted := Wanted(excluded, root, events);
            Picks(excluded, root, WalkRoot(node, ScanCallback(excluded, root)).0) == Names(root, wanted)
            <==> forall i :: 0 <= i < |events| && events[i] in wanted ==>
                   i < FirstStop(excluded, root, node, events) && Reachable(node, events[i].path)
  {
    hide Wanted, Preorder, WalkRoot, Picks, Reached, Reachable, FirstStop, Clean;
    var events := Preorder([], node);
    var n := FirstStop(excluded, root, node, events);
    var before, after := Wanted(excluded, root, events[..n]), Wanted(excluded, root, events[n..]);
    LookupErrorLosesRest(excluded, root, node);
    assert events == events[..n] + events[n..];
    WantedConcat(excluded, root, events[..n], events[n..]);
    ReachedAll(node, 0, before);
    WantedSelects(excluded, root, events);
    WantedSelects(excluded, root, events[..n]);
    WantedAfter(excluded, root, events, n);
    assert |Names(root, Reached(node, 0, before))| == |Reached(node, 0, before)|;
    forall e ensures Reaches(node, 0, e) <==> Reachable(node, e.path) {
      ReachesWhole(node, e);
    }
  }

  lemma WantedAfter(excluded: Excludes, root: string, events: seq<Event>, n: nat)
    requires n <= |events|
    ensures Wanted(excluded, root, events[n..]) == []
            <==> forall i :: n <= i < |events| ==> events[i] !in Wanted(excluded, root, events)
  {
    hide Wanted, Clean;
    var after := Wanted(excluded, root, events[n..]);
    WantedSelects(excluded, root, events);
    WantedSelects(excluded, root, events[n..]);
    if after != [] {
      assert after[0] in after && after[0] in events[n..];
    }
    forall i | n <= i < |events| ensures events[i] in events[n..] {
      assert events[n..][i - n] == events[i];
    }
  }

  /** Trees that lose a file: of a directory with a name "a" that cannot be looked up, or that is a directory which
      cannot be listed, and a regular file "b", the file is wanted, and nothing is collected. */
  lemma LostFile(root: string, first: Node)
    requires first.Missing? || first.Unreadable?
    ensures var node := Dir([Entry("a", first), Entry("b", File(true))]);
            var all: Excludes := (_: string) => false;
            && DistinctNames(node)
            && Wanted(all, root, Preorder([], node)) == [Visit(["b"], false, true)]
            && WalkRoot(node, ScanCallback(all, root)).1 == (if first.Missing? then Continue else Fail(first.e))
            && Picks(all, root, WalkRoot(node, ScanCallback(all, root)).0) == []
  {
    hide Preorder, Wanted, WalkRoot, Picks;
    var node := Dir([Entry("a", first), Entry("b", File(true))]);
    LostNames(node.listing, first);
    LostWanted(root, node, first);
    LostWalk(root, node, first);
  }

  lemma LostNames(listing: seq<Entry>, first: Node)
    requires listing == [Entry("a", first), Entry("b", File(true))] && (first.Missing? || first.Unreadable?)
    ensures SortedNames(listing) == ["a", "b"]
    ensures Listed(listing, "a") && Listed(listing, "b")
    ensures Lookup(listing, "a") == first && Lookup(listing, "b") == File(true)
    ensures DistinctNames(Dir(listing))
  {
    hide Sort;
    var names := NamesOf(listing);
    assert names == ["a", "b"];
    assert Sorted(["a", "b"]);
    SortedUnique(SortedNames(listing), ["a", "b"]);
    assert listing[0].name == "a" && listing[1].name == "b";
    assert listing[1..][0].name == "b";
  }

  ghost predicate Loses(node: Node, first: Node) {
    && node == Dir([Entry("a", first), Entry("b", File(true))]) && (first.Missing? || first.Unreadable?)
    && SortedNames(node.listing) == ["a", "b"] && Listed(node.listing, "a") && Listed(node.listing, "b")
    && Lookup(node.listing, "a") == first && Lookup(node.listing, "b") == File(true)
  }

  lemma LostWanted(root: string, node: Node, first: Node)
    requires Loses(node, first)
    ensures Wanted((_: string) => false, root, Preorder([], node)) == [Visit(["b"], false, true)]
  {
    hide Sort, Render;
    var all: Excludes := (_: string) => false;
    LostPreorder(node, first);
    var d, b := VisitOf([], node), Visit(["b"], false, true);
    WantedConcat(all, root, [d], Preorder(["a"], first) + [b]);
    WantedConcat(all, root, Preorder(["a"], first), [b]);
    WantedOne(all, root, d);
    WantedOne(all, root, b);
    assert Preorder(["a"], first)[1..] == if first.Missing? then [] else [ListError(["a"], first.e)];
    WantedOne(all, root, ListError(["a"], first.e));
  }

  lemma LostPreorder(node: Node, first: Node)
    requires Loses(node, first)
    ensures Preorder([], node) == [VisitOf([], node)] + (Preorder(["a"], first) + [Visit(["b"], false, true)])
  {
    hide SortedNames, Lookup, Listed;
    assert ["a", "b"][1..] == ["b"] && ["b"][1..] == [];
    assert [] + ["a"] == ["a"] && [] + ["b"] == ["b"];
    assert PreorderNames([], node, []) == [];
    assert PreorderNames([], node, ["b"]) == [Visit(["b"], false, true)];
    assert PreorderNames([], node, ["a", "b"]) == Preorder(["a"], first) + [Visit(["b"], false, true)];
  }

  /** The calls for the name "a". */
  function FirstCalls(first: Node): seq<Event>
    requires first.Missing? || first.Unreadable?
  {
    if first.Missing? then [StatError(["a"], first.e)] else [VisitOf(["a"], first), ListError(["a"], first.e)]
  }

  lemma NamesAfterFirst(node: Node, first: Node, f: Callback, h: seq<Event>)
    requires Loses(node, first) && forall g, e :: f(g, e) == if e.Visit? then Continue else Fail(e.e)
    ensures WalkNames([], node, ["a", "b"], f, h)
         == (h + FirstCalls(first), if first.Missing? then Continue else Fail(first.e))
  {
    hide SortedNames, Lookup, Listed;
    assert [] + ["a"] == ["a"];
    if first.Unreadable? {
      assert h + [VisitOf(["a"], first)] + [ListError(["a"], first.e)] == h + FirstCalls(first);
    }
  }

  lemma LostPicks(root: string, node: Node, first: Node)
    requires node.Dir? && (first.Missing? || first.Unreadable?)
    ensures Picks((_: string) => false, root, [VisitOf([], node)] + FirstCalls(first)) == []
  {
    hide Render, Picks;
    var all: Excludes := (_: string) => false;
    var d := VisitOf([], node);
    NoPicks(all, root);
    PicksPush(all, root, [], d);
    assert [] + [d] == [d];
    PicksPush(all, root, [d], FirstCalls(first)[0]);
    if first.Unreadable? {
      PicksPush(all, root, [d] + [FirstCalls(first)[0]], FirstCalls(first)[1]);
      assert [d] + [FirstCalls(first)[0]] + [FirstCalls(first)[1]] == [d] + FirstCalls(first);
    } else {
      assert [FirstCalls(first)[0]] == FirstCalls(first);
    }
  }

  lemma LostWalk(root: string, node: Node, first: Node)
    requires Loses(node, first)
    ensures var w := WalkRoot(node, ScanCallback((_: string) => false, root));
            w.1 == (if first.Missing? then Continue else Fail(first.e)) && Picks((_: string) => false, root, w.0) == []
  {
    hide SortedNames, Lookup, Listed, Render, Picks, FirstCalls, WalkNames;
    var f := ScanCallback((_: string) => false, root);
    var d := VisitOf([], node);
    assert [] + [d] == [d];
    NamesAfterFirst(node, first, f, [d]);
    LostPicks(root, node, first);
  }
}
