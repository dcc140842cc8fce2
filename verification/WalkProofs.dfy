/** The walk is one scan of the preorder list of its calls. */
module WalkProofs {
  import opened Walk

  ghost predicate AllUnder(events: seq<Event>, p: Path) {
    forall i :: 0 <= i < |events| ==> p <= events[i].path
  }

  ghost predicate NoneUnder(events: seq<Event>, p: Path) {
    forall i :: 0 <= i < |events| ==> !(p <= events[i].path)
  }

  ghost predicate NoDup(names: seq<string>) {
    forall name :: multiset(names)[name] <= 1
  }

  /** Within every directory the names differ. */
  ghost predicate DistinctNames(node: Node) {
    node.Dir? ==>
      && NoDup(NamesOf(node.listing))
      && forall i :: 0 <= i < |node.listing| ==> DistinctNames(node.listing[i].node)
  }

  // ----- steps of the scan

  lemma ScanStep(e: Event, tail: seq<Event>, f: Callback, h: seq<Event>)
    ensures Scan([e] + tail, NoSkip, f, h) ==
            match After(e, f(h, e))
            case Stop(sig) => (h + [e], sig)
            case Go(skip) => Scan(tail, skip, f, h + [e])
  {
  }

  lemma {:induction false} ScanSkips(seg: seq<Event>, rest: seq<Event>, p: Path, f: Callback, h: seq<Event>)
    requires AllUnder(seg, p)
    ensures Scan(seg + rest, Below(p), f, h) == Scan(rest, Below(p), f, h)
  {
    if seg == [] {
      assert seg + rest == rest;
    } else {
      assert (seg + rest)[1..] == seg[1..] + rest;
      ScanSkips(seg[1..], rest, p, f, h);
    }
  }

  lemma ScanPast(rest: seq<Event>, p: Path, f: Callback, h: seq<Event>)
    requires NoneUnder(rest, p)
    ensures Scan(rest, Below(p), f, h) == Scan(rest, NoSkip, f, h)
  {
  }

  /** What is left to scan below `p` is skipped; after it the scan goes on. */
  lemma ScanAfter(seg: seq<Event>, rest: seq<Event>, p: Path, f: Callback, h: seq<Event>)
    requires AllUnder(seg, p) && NoneUnder(rest, p)
    ensures Scan(seg + rest, Below(p), f, h) == Scan(rest, NoSkip, f, h)
  {
    ScanSkips(seg, rest, p, f, h);
    ScanPast(rest, p, f, h);
  }

  // ----- where the calls of a subtree lie

  ghost predicate UnderNames(events: seq<Event>, path: Path, names: seq<string>) {
    forall i :: 0 <= i < |events| ==>
      path <= events[i].path && |path| < |events[i].path| && events[i].path[|path|] in names
  }

  lemma {:induction false} PreorderUnder(path: Path, node: Node)
    ensures AllUnder(Preorder(path, node), path)
    decreases node, 1, 0
  {
    if node.Dir? {
      SortedNamesListed(node.listing);
      PreorderNamesUnder(path, node, SortedNames(node.listing));
    }
  }

  lemma {:induction false} PreorderNamesUnder(path: Path, dir: Node, names: seq<string>)
    requires dir.Dir? && forall name :: name in names ==> Listed(dir.listing, name)
    ensures UnderNames(PreorderNames(path, dir, names), path, names)
    decreases dir, 0, |names|
  {
    if names != [] {
      var p, child := path + [names[0]], Lookup(dir.listing, names[0]);
      ChildSmaller(dir, names[0]);
      PreorderUnder(p, child);
      PreorderNamesUnder(path, dir, names[1..]);
      UnderFirst(Preorder(p, child), path, names);
    }
  }

  lemma UnderFirst(events: seq<Event>, path: Path, names: seq<string>)
    requires names != [] && AllUnder(events, path + [names[0]])
    ensures UnderNames(events, path, names)
  {
  }

  lemma UnderOthers(events: seq<Event>, path: Path, names: seq<string>, name: string)
    requires UnderNames(events, path, names) && name !in names
    ensures NoneUnder(events, path + [name])
  {
  }

  // ----- refinement

  /** How the scan goes on when a walk at or below `path` ended with `sig`. A leaf is a node that is no directory. */
  ghost function Continued(path: Path, leaf: bool, rest: seq<Event>, f: Callback,
                           w: (seq<Event>, Signal)): (seq<Event>, Signal)
  {
    match w.1
    case Continue => Scan(rest, NoSkip, f, w.0)
    case Fail(_) => w
    case SkipDir =>
      if path == [] || (leaf && |path| == 1) then w
      else if leaf then Scan(rest, Below(path[..|path| - 1]), f, w.0)
      else Scan(rest, NoSkip, f, w.0)
  }

  lemma {:induction false} NodeScan(path: Path, node: Node, f: Callback, h: seq<Event>, rest: seq<Event>)
    requires !node.Missing? && DistinctNames(node) && NoneUnder(rest, path)
    ensures Scan(Preorder(path, node) + rest, NoSkip, f, h)
         == Continued(path, !node.IsDir(), rest, f, WalkNode(path, node, f, h))
    decreases node, 1, 0
  {
    hide Scan, SortedNames;
    var visit := VisitOf(path, node);
    var below := Preorder(path, node)[1..];
    assert Preorder(path, node) + rest == [visit] + (below + rest);
    ScanStep(visit, below + rest, f, h);
    match f(h, visit)
    case Fail(_) =>
    case SkipDir =>
      if node.IsDir() {
        PreorderUnder(path, node);
        ScanAfter(below, rest, path, f, h + [visit]);
      } else {
        assert below + rest == rest;
      }
    case Continue =>
      match node {
        case File(_) =>
          assert below + rest == rest;
        case Unreadable(e) =>
          ScanStep(ListError(path, e), rest, f, h + [visit]);
        case Dir(listing) =>
          var names := SortedNames(listing);
          SortedNamesListed(listing);
          assert NoDup(names);
          NamesScan(path, node, names, f, h + [visit], rest);
      }
  }

  lemma {:induction false} NamesScan(path: Path, dir: Node, names: seq<string>, f: Callback, h: seq<Event>,
                                     rest: seq<Event>)
    requires dir.Dir? && (forall name :: name in names ==> Listed(dir.listing, name)) && NoDup(names)
    requires DistinctNames(dir) && NoneUnder(rest, path)
    ensures Scan(PreorderNames(path, dir, names) + rest, NoSkip, f, h)
         == Continued(path, false, rest, f, WalkNames(path, dir, names, f, h))
    decreases dir, 0, |names|, 1
  {
    hide Scan, Preorder;
    if names == [] {
      assert PreorderNames(path, dir, names) + rest == rest;
    } else {
      var p, child := path + [names[0]], Lookup(dir.listing, names[0]);
      var node, tail := Preorder(p, child), PreorderNames(path, dir, names[1..]);
      ChildSmaller(dir, names[0]);
      ChildDistinct(dir, names[0]);
      TailNoDup(names);
      assert PreorderNames(path, dir, names) + rest == node + (tail + rest);
      assert AllUnder(tail, path) && NoneUnder(tail + rest, p) by {
        PreorderNamesUnder(path, dir, names[1..]);
        UnderOthers(tail, path, names[1..], names[0]);
      }
      if child.Missing? {
        MissingScan(path, dir, names, f, h, rest, tail);
      } else {
        NodeScan(p, child, f, h, tail + rest);
        var (h1, sig) := WalkNode(p, child, f, h);
        if sig == Continue || (sig == SkipDir && child.IsDir()) {
          NamesScan(path, dir, names[1..], f, h1, rest);
        } else if sig == SkipDir && path != [] {
          assert p[..|p| - 1] == path;
          ScanAfter(tail, rest, path, f, h1);
        }
      }
    }
  }

  lemma {:induction false} MissingScan(path: Path, dir: Node, names: seq<string>, f: Callback, h: seq<Event>,
                                       rest: seq<Event>, tail: seq<Event>)
    requires dir.Dir? && (forall name :: name in names ==> Listed(dir.listing, name)) && NoDup(names)
    requires DistinctNames(dir) && NoneUnder(rest, path)
    requires names != [] && Lookup(dir.listing, names[0]).Missing?
    requires tail == PreorderNames(path, dir, names[1..]) && AllUnder(tail, path)
    ensures Scan(Preorder(path + [names[0]], Lookup(dir.listing, names[0])) + (tail + rest), NoSkip, f, h)
         == Continued(path, false, rest, f, WalkNames(path, dir, names, f, h))
    decreases dir, 0, |names|, 0
  {
    hide Scan;
    var p := path + [names[0]];
    var error := StatError(p, Lookup(dir.listing, names[0]).e);
    ScanStep(error, tail + rest, f, h);
    TailNoDup(names);
    if f(h, error).Fail? {
      assert p[..|p| - 1] == path;
      ScanAfter(tail, rest, path, f, h + [error]);
    } else {
      NamesScan(path, dir, names[1..], f, h + [error], rest);
    }
  }

  lemma TailNoDup(names: seq<string>)
    requires names != [] && NoDup(names)
    ensures NoDup(names[1..]) && names[0] !in names[1..]
  {
    MultisetTail(names);
    assert multiset(names)[names[0]] <= 1;
    forall name
      ensures multiset(names[1..])[name] <= 1
    {
      assert multiset(names)[name] <= 1;
    }
    assert multiset(names[1..])[names[0]] == 0;
  }

  lemma ChildDistinct(dir: Node, name: string)
    requires dir.Dir? && Listed(dir.listing, name) && DistinctNames(dir)
    ensures DistinctNames(Lookup(dir.listing, name))
  {
  }

  /** The walk makes the calls, and ends with the signal, of one scan of its preorder. */
  lemma WalkIsScan(root: Node, f: Callback)
    requires DistinctNames(root)
    ensures WalkRoot(root, f) == Scan(Preorder([], root), NoSkip, f, [])
  {
    var events := Preorder([], root);
    assert events + [] == events;
    if root.Missing? {
      assert [events[0]] + [] == events && [] + [events[0]] == events;
      ScanStep(events[0], [], f, []);
    } else {
      NodeScan([], root, f, [], []);
    }
  }

  // ----- what follows for every callback

  /** `a` lists some of the elements of `b`, in the same order. */
  ghost predicate Subsequence<T>(a: seq<T>, b: seq<T>) {
    a == [] || (b != [] && ((a[0] == b[0] && Subsequence(a[1..], b[1..])) || Subsequence(a, b[1..])))
  }

  /** The calls made are some of the calls of the preorder, in its order. */
  lemma {:induction false} ScanSelects(events: seq<Event>, skip: Skip, f: Callback, h: seq<Event>)
    ensures var w := Scan(events, skip, f, h);
            h <= w.0 && Subsequence(w.0[|h|..], events)
  {
    if events != [] {
      if Skipped(skip, events[0]) {
        ScanSelects(events[1..], skip, f, h);
      } else {
        var h1 := h + [events[0]];
        match After(events[0], f(h, events[0])) {
          case Stop(sig) =>
            assert h1[|h|..] == [events[0]];
          case Go(next) =>
            ScanSelects(events[1..], next, f, h1);
            var w := Scan(events[1..], next, f, h1);
            assert w.0[|h|..][1..] == w.0[|h1|..];
        }
      }
    }
  }

  /** An error returned by the walk was answered to its last call. */
  lemma {:induction false} ErrorEndsScan(events: seq<Event>, skip: Skip, f: Callback, h: seq<Event>)
    ensures var w := Scan(events, skip, f, h);
            w.1.Fail? ==> |h| < |w.0| && f(w.0[..|w.0| - 1], w.0[|w.0| - 1]) == w.1
  {
    if events != [] {
      if Skipped(skip, events[0]) {
        ErrorEndsScan(events[1..], skip, f, h);
      } else {
        var h1 := h + [events[0]];
        assert h1[..|h|] == h;
        match After(events[0], f(h, events[0])) {
          case Stop(sig) =>
          case Go(next) => ErrorEndsScan(events[1..], next, f, h1);
        }
      }
    }
  }

  /** A callback that always answers nil is called for the whole tree, in preorder. */
  lemma {:induction false} ScanAll(events: seq<Event>, f: Callback, h: seq<Event>)
    requires forall g, e :: f(g, e) == Continue
    ensures Scan(events, NoSkip, f, h) == (h + events, Continue)
  {
    if events == [] {
      assert h + events == h;
    } else {
      ScanAll(events[1..], f, h + [events[0]]);
      assert h + [events[0]] + events[1..] == h + events;
    }
  }

  /** Without skips, an error that is not about a lookup ends the walk after a prefix of the preorder. */
  lemma {:induction false} ErrorStops(events: seq<Event>, f: Callback, h: seq<Event>, k: nat)
    requires k < |events| && forall i :: 0 <= i < k ==> f(h + events[..i], events[i]) == Continue
    requires f(h + events[..k], events[k]).Fail? && (events[k].StatError? ==> events[k].path == [])
    ensures Scan(events, NoSkip, f, h) == (h + events[..k + 1], f(h + events[..k], events[k]))
  {
    var h1 := h + [events[0]];
    assert h + events[..0] == h;
    if k == 0 {
      assert events[..1] == [events[0]];
    } else {
      forall i | 0 <= i <= k ensures h1 + events[1..][..i] == h + events[..i + 1] {
      }
      assert h1 + events[1..][..k - 1] == h + events[..k];
      ErrorStops(events[1..], f, h1, k - 1);
      assert h1 + events[1..][..k] == h + events[..k + 1];
    }
  }

  // ----- no call is made twice

  ghost predicate NoRepeat<T>(s: seq<T>) {
    forall i, j :: 0 <= i < j < |s| ==> s[i] != s[j]
  }

  lemma {:induction false} PreorderOnce(path: Path, node: Node)
    requires DistinctNames(node)
    ensures NoRepeat(Preorder(path, node))
    decreases node, 1, 0
  {
    if node.Dir? {
      var names := SortedNames(node.listing);
      SortedNamesListed(node.listing);
      assert NoDup(names);
      PreorderNamesOnce(path, node, names);
      PreorderNamesUnder(path, node, names);
    }
  }

  lemma {:induction false} PreorderNamesOnce(path: Path, dir: Node, names: seq<string>)
    requires dir.Dir? && (forall name :: name in names ==> Listed(dir.listing, name)) && NoDup(names)
    requires DistinctNames(dir)
    ensures NoRepeat(PreorderNames(path, dir, names))
    decreases dir, 0, |names|
  {
    hide Preorder, SortedNames;
    if names != [] {
      var p, child := path + [names[0]], Lookup(dir.listing, names[0]);
      var node, tail := Preorder(p, child), PreorderNames(path, dir, names[1..]);
      ChildSmaller(dir, names[0]);
      ChildDistinct(dir, names[0]);
      TailNoDup(names);
      PreorderOnce(p, child);
      PreorderNamesOnce(path, dir, names[1..]);
      PreorderUnder(p, child);
      PreorderNamesUnder(path, dir, names[1..]);
      UnderOthers(tail, path, names[1..], names[0]);
      assert PreorderNames(path, dir, names) == node + tail;
    }
  }

  lemma {:induction false} SubsequenceOnce<T>(a: seq<T>, b: seq<T>)
    requires Subsequence(a, b) && NoRepeat(b)
    ensures NoRepeat(a) && forall x :: x in a ==> x in b
    decreases |b|
  {
    if a != [] {
      if a[0] == b[0] && Subsequence(a[1..], b[1..]) {
        SubsequenceOnce(a[1..], b[1..]);
        assert forall j :: 0 < j < |a| ==> a[j] == a[1..][j - 1] && a[j] in b[1..];
        assert forall x :: x in a ==> x == a[0] || x in a[1..];
      } else {
        SubsequenceOnce(a, b[1..]);
      }
    }
  }

  /** Whatever the callback answers, the walk makes calls of the preorder, in that order, none twice. */
  lemma WalkSelects(root: Node, f: Callback)
    requires DistinctNames(root)
    ensures var calls := WalkRoot(root, f).0;
            Subsequence(calls, Preorder([], root)) && NoRepeat(calls)
  {
    var events := Preorder([], root);
    WalkIsScan(root, f);
    ScanSelects(events, NoSkip, f, []);
    var calls := Scan(events, NoSkip, f, []).0;
    assert calls[0..] == calls;
    PreorderOnce([], root);
    SubsequenceOnce(calls, events);
  }

  // ----- what the calls are

  datatype MaybeNode = Nowhere | There(node: Node)

  /** The node at a place below a node, name by name. */
  function NodeAt(node: Node, q: Path): MaybeNode
    decreases |q|
  {
    if q == [] then There(node)
    else if node.Dir? && Listed(node.listing, q[0]) then NodeAt(Lookup(node.listing, q[0]), q[1..])
    else Nowhere
  }

  /** What is called for at a node: a visit of a file or directory, an error of one that cannot be listed, an error of
      a name that cannot be looked up. */
  ghost predicate CalledFor(node: Node, e: Event) {
    match e
    case Visit(_, isDir, regular) =>
      if isDir then !regular && (node.Dir? || node.Unreadable?) else node == File(regular)
    case ListError(_, error) => node == Unreadable(error)
    case StatError(_, error) => node == Missing(error)
  }

  ghost predicate CalledAt(node: Node, q: Path, e: Event) {
    NodeAt(node, q).There? && CalledFor(NodeAt(node, q).node, e)
  }

  lemma CalledBelow(dir: Node, path: Path, e: Event)
    requires dir.Dir? && path <= e.path && |path| < |e.path| && Listed(dir.listing, e.path[|path|])
    ensures CalledAt(dir, e.path[|path|..], e)
            <==> CalledAt(Lookup(dir.listing, e.path[|path|]), e.path[|path| + 1..], e)
  {
    var q := e.path[|path|..];
    assert q[0] == e.path[|path|] && q[1..] == e.path[|path| + 1..];
  }

  /** The preorder of a tree is the calls for its nodes: each node's, at its place, and no other. */
  lemma {:induction false} PreorderCalls(path: Path, node: Node, e: Event)
    ensures e in Preorder(path, node) <==> path <= e.path && CalledAt(node, e.path[|path|..], e)
    decreases node, 1, 0
  {
    hide SortedNames, Lookup, Listed, PreorderNames, CalledAt;
    if path <= e.path {
      AtTop(path, node, e);
    }
    if node.Dir? {
      var names := SortedNames(node.listing);
      SortedNamesListed(node.listing);
      NamesCalls(path, node, names, e);
      AllListed(node.listing);
      if path <= e.path && |path| < |e.path| && e.path[|path|] !in names {
        NotListed(node, path, e);
      }
    } else if path < e.path {
      NotListed(node, path, e);
    }
  }

  lemma AtTop(path: Path, node: Node, e: Event)
    requires path <= e.path
    ensures |path| == |e.path| ==> e.path == path && (CalledAt(node, e.path[|path|..], e) <==> CalledFor(node, e))
  {
  }

  lemma NotListed(node: Node, path: Path, e: Event)
    requires path <= e.path && |path| < |e.path|
    requires node.Dir? ==> !Listed(node.listing, e.path[|path|])
    ensures !CalledAt(node, e.path[|path|..], e)
  {
    assert e.path[|path|..][0] == e.path[|path|];
  }

  lemma AllListed(listing: seq<Entry>)
    ensures forall name :: Listed(listing, name) ==> name in SortedNames(listing)
  {
    hide Sort;
    forall name | Listed(listing, name) ensures name in SortedNames(listing) {
      var i :| 0 <= i < |listing| && listing[i].name == name;
      assert NamesOf(listing)[i] == name;
      assert name in multiset(SortedNames(listing));
    }
  }

  lemma {:induction false} NamesCalls(path: Path, dir: Node, names: seq<string>, e: Event)
    requires dir.Dir? && forall name :: name in names ==> Listed(dir.listing, name)
    ensures e in PreorderNames(path, dir, names) <==>
              && path <= e.path && |path| < |e.path| && e.path[|path|] in names
              && CalledAt(dir, e.path[|path|..], e)
    decreases dir, 0, |names|
  {
    hide Preorder, Lookup, Listed, CalledAt;
    if names != [] {
      var p, child := path + [names[0]], Lookup(dir.listing, names[0]);
      ChildSmaller(dir, names[0]);
      PreorderCalls(p, child, e);
      NamesCalls(path, dir, names[1..], e);
      if path <= e.path && |path| < |e.path| && e.path[|path|] in names {
        CalledBelow(dir, path, e);
      }
      assert p <= e.path <==> path <= e.path && |path| < |e.path| && e.path[|path|] == names[0];
    }
  }
}
