/** Which files of a repository are indexed: the walk's callback and what it collects. */
module Scanner {
  import opened Walk
  import opened WalkProofs

  /** Says of a path name whether it is excluded. */
  type Excludes = string -> bool

  // ----- the excluded paths

  function LastDot(name: string): (i: int)
    ensures -1 <= i < |name|
    ensures 0 <= i ==> name[i] == '.'
    ensures forall j :: i < j < |name| ==> name[j] != '.'
  {
    if name == [] then -1
    else if name[|name| - 1] == '.' then |name| - 1
    else LastDot(name[..|name| - 1])
  }

  predicate MatchExtension(extensions: set<string>, name: string) {
    var n := LastDot(name);
    n >= 0 && name[n + 1..] in extensions
  }

  predicate MatchFile(extensions: set<string>, name: string) {
    MatchExtension(extensions, name) || (name != [] && name[|name| - 1] == '#')
  }

  predicate EndsWith(name: string, suffix: string) {
    |suffix| <= |name| && name[|name| - |suffix|..] == suffix
  }

  const ExcludedExtensions: set<string> := {"afindex", "git", "hg", "svn"}

  /** A path is excluded if it ends in '#', or in a dot and an excluded extension. */
  lemma MatchFileMeaning(extensions: set<string>, name: string)
    requires forall e :: e in extensions ==> '.' !in e
    ensures MatchFile(extensions, name) <==>
            EndsWith(name, "#") || exists e :: e in extensions && EndsWith(name, "." + e)
  {
    var n := LastDot(name);
    if 0 <= n {
      assert name[n..] == "." + name[n + 1..];
    }
    forall e | e in extensions && EndsWith(name, "." + e)
      ensures MatchExtension(extensions, name)
    {
      var k := |name| - |e| - 1;
      assert name[k..][0] == '.' && name[k..][1..] == e;
      assert name[k + 1..] == e;
      assert forall j :: k < j < |name| ==> name[j] == e[j - k - 1];
      assert n == k;
    }
    assert EndsWith(name, "#") <==> name != [] && name[|name| - 1] == '#';
  }

  /** The paths that are not indexed. */
  predicate IndexPathExcludes(name: string) {
    MatchFile(ExcludedExtensions, name)
  }

  lemma ExcludedPaths(name: string)
    ensures IndexPathExcludes(name) <==>
            || EndsWith(name, "#") || EndsWith(name, ".afindex")
            || EndsWith(name, ".git") || EndsWith(name, ".hg") || EndsWith(name, ".svn")
  {
    hide EndsWith, MatchFile;
    MatchFileMeaning(ExcludedExtensions, name);
    assert "." + "afindex" == ".afindex" && "." + "git" == ".git" && "." + "hg" == ".hg" && "." + "svn" == ".svn";
    assert "afindex" in ExcludedExtensions && "git" in ExcludedExtensions;
    assert "hg" in ExcludedExtensions && "svn" in ExcludedExtensions;
  }

  // ----- path names

  /** filepath.Join of a clean path and a name. */
  function Join(path: string, name: string): string {
    if path == "" || path[|path| - 1] == '/' then path + name else path + "/" + name
  }

  /** The path name the callback sees for a place below the root of the walk. */
  function Render(root: string, path: Path): string {
    if path == [] then root else Join(Render(root, path[..|path| - 1]), path[|path| - 1])
  }

  function TrimLeadingSlash(name: string): string {
    if name != "" && name[0] == '/' then name[1..] else name
  }

  // ----- the callback

  function ScanSignal(excluded: Excludes, root: string, e: Event): Signal {
    match e
    case ListError(_, error) => Fail(error)
    case StatError(_, error) => Fail(error)
    case Visit(path, isDir, _) => if isDir && excluded(Render(root, path)) then SkipDir else Continue
  }

  /** The names the callback collects at one call. */
  function Picked(excluded: Excludes, root: string, e: Event): seq<string> {
    if e.Visit? && !e.isDir && e.regular && !excluded(Render(root, e.path))
    then [TrimLeadingSlash(Render(root, e.path))] else []
  }

  function Picks(excluded: Excludes, root: string, events: seq<Event>): seq<string> {
    if events == [] then []
    else Picks(excluded, root, events[..|events| - 1]) + Picked(excluded, root, events[|events| - 1])
  }

  function ScanCallback(excluded: Excludes, root: string): Callback {
    (h: seq<Event>, e: Event) => ScanSignal(excluded, root, e)
  }

  // ----- the declarative form

  ghost predicate Clean(excluded: Excludes, root: string, path: Path) {
    forall k :: 0 <= k <= |path| ==> !excluded(Render(root, path[..k]))
  }

  /** The calls for regular files such that neither the file nor a directory from the root down is excluded. */
  ghost function Wanted(excluded: Excludes, root: string, events: seq<Event>): seq<Event> {
    if events == [] then []
    else
      (if events[0].Visit? && events[0].regular && Clean(excluded, root, events[0].path) then [events[0]] else [])
      + Wanted(excluded, root, events[1..])
  }

  ghost function Names(root: string, events: seq<Event>): seq<string> {
    seq(|events|, i requires 0 <= i < |events| => TrimLeadingSlash(Render(root, events[i].path)))
  }

  /** Everything can be listed and looked up. */
  ghost predicate ErrorFree(node: Node) {
    && !node.Missing? && !node.Unreadable?
    && (node.Dir? ==> forall i :: 0 <= i < |node.listing| ==> ErrorFree(node.listing[i].node))
  }

  lemma PicksPush(excluded: Excludes, root: string, h: seq<Event>, e: Event)
    ensures Picks(excluded, root, h + [e]) == Picks(excluded, root, h) + Picked(excluded, root, e)
  {
  }

  lemma {:induction false} WantedConcat(excluded: Excludes, root: string, a: seq<Event>, b: seq<Event>)
    ensures Wanted(excluded, root, a + b) == Wanted(excluded, root, a) + Wanted(excluded, root, b)
  {
    if a == [] {
      assert a + b == b;
    } else {
      assert (a + b)[1..] == a[1..] + b;
      WantedConcat(excluded, root, a[1..], b);
    }
  }

  lemma WantedOne(excluded: Excludes, root: string, e: Event)
    ensures Wanted(excluded, root, []) == []
    ensures Wanted(excluded, root, [e])
         == if e.Visit? && e.regular && Clean(excluded, root, e.path) then [e] else []
  {
  }

  lemma NamesConcat(root: string, a: seq<Event>, b: seq<Event>)
    ensures Names(root, a + b) == Names(root, a) + Names(root, b)
  {
  }

  /** Nothing below an excluded place is wanted. */
  lemma {:induction false} WantedNone(excluded: Excludes, root: string, events: seq<Event>, p: Path)
    requires AllUnder(events, p) && excluded(Render(root, p))
    ensures Wanted(excluded, root, events) == []
  {
    if events != [] {
      assert events[0].path[..|p|] == p;
      WantedNone(excluded, root, events[1..], p);
    }
  }

  lemma ErrorFreeChild(dir: Node, name: string)
    requires dir.Dir? && Listed(dir.listing, name) && ErrorFree(dir)
    ensures ErrorFree(Lookup(dir.listing, name))
  {
  }

  lemma CleanBelow(excluded: Excludes, root: string, path: Path, name: string)
    requires Clean(excluded, root, path)
    ensures forall k :: 0 <= k <= |path| ==> !excluded(Render(root, (path + [name])[..k]))
  {
    forall k | 0 <= k <= |path| ensures !excluded(Render(root, (path + [name])[..k])) {
      assert (path + [name])[..k] == path[..k];
    }
  }

  ghost predicate ParentsClean(excluded: Excludes, root: string, path: Path) {
    forall k :: 0 <= k < |path| ==> !excluded(Render(root, path[..k]))
  }

  lemma {:induction false} NodePicks(excluded: Excludes, root: string, path: Path, node: Node, h: seq<Event>)
    requires ErrorFree(node) && ParentsClean(excluded, root, path)
    ensures var w := WalkNode(path, node, ScanCallback(excluded, root), h);
            && w.1 == Continue
            && Picks(excluded, root, w.0)
            == Picks(excluded, root, h) + Names(root, Wanted(excluded, root, Preorder(path, node)))
    decreases node, 1, 0
  {
    hide SortedNames, Picks, Render, Wanted;
    var visit := VisitOf(path, node);
    PicksPush(excluded, root, h, visit);
    WantedOne(excluded, root, visit);
    assert path[..|path|] == path;
    assert Clean(excluded, root, path) <==> !excluded(Render(root, path));
    if node.Dir? {
      if excluded(Render(root, path)) {
        PreorderUnder(path, node);
        WantedNone(excluded, root, Preorder(path, node), path);
      } else {
        var names := SortedNames(node.listing);
        SortedNamesListed(node.listing);
        NamesPicks(excluded, root, path, node, names, h + [visit]);
        WantedConcat(excluded, root, [visit], PreorderNames(path, node, names));
      }
    }
  }

  lemma {:induction false} NamesPicks(excluded: Excludes, root: string, path: Path, dir: Node, names: seq<string>,
                                      h: seq<Event>)
    requires dir.Dir? && forall name :: name in names ==> Listed(dir.listing, name)
    requires ErrorFree(dir) && Clean(excluded, root, path)
    ensures var w := WalkNames(path, dir, names, ScanCallback(excluded, root), h);
            && w.1 == Continue
            && Picks(excluded, root, w.0)
            == Picks(excluded, root, h) + Names(root, Wanted(excluded, root, PreorderNames(path, dir, names)))
    decreases dir, 0, |names|
  {
    hide Preorder, Picks, Render, Wanted, WalkNode;
    if names == [] {
      WantedOne(excluded, root, StatError(path, ""));
    } else {
      var p, child := path + [names[0]], Lookup(dir.listing, names[0]);
      ChildSmaller(dir, names[0]);
      ErrorFreeChild(dir, names[0]);
      CleanBelow(excluded, root, path, names[0]);
      NodePicks(excluded, root, p, child, h);
      var w := WalkNode(p, child, ScanCallback(excluded, root), h);
      NamesPicks(excluded, root, path, dir, names[1..], w.0);
      var node, tail := Preorder(p, child), PreorderNames(path, dir, names[1..]);
      WantedConcat(excluded, root, node, tail);
      NamesConcat(root, Wanted(excluded, root, node), Wanted(excluded, root, tail));
    }
  }

  // ----- different places have different path names

  ghost predicate ValidName(name: string) {
    name != "" && '/' !in name
  }

  ghost predicate ValidPath(path: Path) {
    forall i :: 0 <= i < |path| ==> ValidName(path[i])
  }

  ghost predicate EndsInSlash(a: string) {
    a == "" || a[|a| - 1] == '/'
  }

  function WithSlash(a: string): string {
    if a == "" || a[|a| - 1] == '/' then a else a + "/"
  }

  lemma SlashInTail(a: string, n: string, b: string, m: string)
    ensures a + n == b + m && EndsInSlash(a) && |b| < |a| ==> '/' in m
  {
    if a + n == b + m && EndsInSlash(a) && |b| < |a| {
      assert (b + m)[|a| - 1] == m[|a| - 1 - |b|];
    }
  }

  lemma SplitAtSlash(a: string, n: string, b: string, m: string)
    requires EndsInSlash(a) && EndsInSlash(b) && '/' !in n && '/' !in m && a + n == b + m
    ensures a == b && n == m
  {
    SlashInTail(a, n, b, m);
    SlashInTail(b, m, a, n);
    assert a == (a + n)[..|a|] && b == (b + m)[..|b|];
    assert n == (a + n)[|a|..] && m == (b + m)[|b|..];
  }

  lemma RenderEnds(root: string, path: Path)
    requires ValidPath(path) && path != []
    ensures var head, last := Render(root, path[..|path| - 1]), path[|path| - 1];
            && Render(root, path) == WithSlash(head) + last
            && |head| < |Render(root, path)| && !EndsInSlash(Render(root, path))
  {
  }

  lemma {:induction false} RenderLonger(root: string, path: Path)
    requires ValidPath(path)
    ensures |root| <= |Render(root, path)| && (path != [] ==> |root| < |Render(root, path)|)
  {
    if path != [] {
      RenderEnds(root, path);
      RenderLonger(root, path[..|path| - 1]);
    }
  }

  lemma {:induction false} RenderInjective(root: string, p: Path, q: Path)
    requires ValidPath(p) && ValidPath(q) && Render(root, p) == Render(root, q)
    ensures p == q
  {
    RenderLonger(root, p);
    RenderLonger(root, q);
    if p != [] && q != [] {
      hide Render;
      var p', q' := p[..|p| - 1], q[..|q| - 1];
      RenderEnds(root, p);
      RenderEnds(root, q);
      assert ValidName(p[|p| - 1]) && ValidName(q[|q| - 1]);
      SplitAtSlash(WithSlash(Render(root, p')), p[|p| - 1], WithSlash(Render(root, q')), q[|q| - 1]);
      SameHead(root, p', q');
      RenderInjective(root, p', q');
      assert p == p' + [p[|p| - 1]] && q == q' + [q[|q| - 1]];
    }
  }

  lemma SameHead(root: string, p: Path, q: Path)
    requires ValidPath(p) && ValidPath(q) && WithSlash(Render(root, p)) == WithSlash(Render(root, q))
    ensures Render(root, p) == Render(root, q)
  {
    hide Render;
    RenderLonger(root, p);
    RenderLonger(root, q);
    if p != [] {
      RenderEnds(root, p);
    }
    if q != [] {
      RenderEnds(root, q);
    }
    RenderNone(root);
    var a, b := Render(root, p), Render(root, q);
    assert a == WithSlash(a)[..|a|] && b == WithSlash(b)[..|b|];
  }

  lemma RenderNone(root: string)
    ensures Render(root, []) == root
  {
  }

  // ----- the scanner

  /** In every directory of the tree, names are not empty and hold no slash. */
  ghost predicate ValidNames(node: Node) {
    node.Dir? ==> forall i :: 0 <= i < |node.listing| ==>
      ValidName(node.listing[i].name) && ValidNames(node.listing[i].node)
  }

  lemma {:induction false} PreorderValid(path: Path, node: Node)
    requires ValidNames(node) && ValidPath(path)
    ensures forall i :: 0 <= i < |Preorder(path, node)| ==> ValidPath(Preorder(path, node)[i].path)
    decreases node, 1, 0
  {
    if node.Dir? {
      SortedNamesListed(node.listing);
      PreorderNamesValid(path, node, SortedNames(node.listing));
    }
  }

  lemma {:induction false} PreorderNamesValid(path: Path, dir: Node, names: seq<string>)
    requires dir.Dir? && forall name :: name in names ==> Listed(dir.listing, name)
    requires ValidNames(dir) && ValidPath(path)
    ensures forall i :: 0 <= i < |PreorderNames(path, dir, names)| ==>
              ValidPath(PreorderNames(path, dir, names)[i].path)
    decreases dir, 0, |names|
  {
    if names != [] {
      var child := Lookup(dir.listing, names[0]);
      ChildSmaller(dir, names[0]);
      var i :| 0 <= i < |dir.listing| && dir.listing[i] == Entry(names[0], child);
      assert ValidName(dir.listing[i].name);
      PreorderValid(path + [names[0]], child);
      PreorderNamesValid(path, dir, names[1..]);
    }
  }

  lemma {:induction false} WantedSelects(excluded: Excludes, root: string, events: seq<Event>)
    ensures Subsequence(Wanted(excluded, root, events), events)
    ensures forall e :: e in Wanted(excluded, root, events) <==>
              e in events && e.Visit? && e.regular && Clean(excluded, root, e.path)
  {
    if events != [] {
      var rest := Wanted(excluded, root, events[1..]);
      WantedSelects(excluded, root, events[1..]);
      if events[0].Visit? && events[0].regular && Clean(excluded, root, events[0].path) {
        assert Wanted(excluded, root, events)[1..] == rest;
      } else {
        assert Wanted(excluded, root, events) == rest;
      }
    }
  }

  predicate Slashed(name: string) {
    name != "" && name[0] == '/'
  }

  lemma {:induction false} RenderSlashed(root: string, path: Path)
    requires ValidPath(path)
    ensures Slashed(Render(root, path)) <==> Slashed(root)
  {
    if path != [] {
      RenderEnds(root, path);
      RenderSlashed(root, path[..|path| - 1]);
      RenderLonger(root, path[..|path| - 1]);
      assert ValidName(path[|path| - 1]);
    }
  }

  lemma TrimInjective(root: string, p: Path, q: Path)
    requires ValidPath(p) && ValidPath(q)
    requires TrimLeadingSlash(Render(root, p)) == TrimLeadingSlash(Render(root, q))
    ensures p == q
  {
    hide Render;
    var a, b := Render(root, p), Render(root, q);
    RenderSlashed(root, p);
    RenderSlashed(root, q);
    if Slashed(root) {
      assert a == "/" + a[1..] && b == "/" + b[1..];
    }
    RenderInjective(root, p, q);
  }

  /** Two wanted calls are for two places, so they give two names. */
  lemma WantedNamesOnce(excluded: Excludes, root: string, node: Node)
    requires DistinctNames(node) && ValidNames(node)
    ensures NoRepeat(Names(root, Wanted(excluded, root, Preorder([], node))))
  {
    hide Preorder, Render, Wanted, DistinctNames, ValidNames;
    var events := Preorder([], node);
    var wanted := Wanted(excluded, root, events);
    PreorderOnce([], node);
    PreorderValid([], node);
    WantedSelects(excluded, root, events);
    SubsequenceOnce(wanted, events);
    PreorderVisits([], node);
    forall i, j | 0 <= i < j < |wanted|
      ensures Names(root, wanted)[i] != Names(root, wanted)[j]
    {
      var a, b := wanted[i], wanted[j];
      assert a in wanted && b in wanted && a != b;
      assert a.path != b.path;
      if TrimLeadingSlash(Render(root, a.path)) == TrimLeadingSlash(Render(root, b.path)) {
        TrimInjective(root, a.path, b.path);
      }
    }
  }

  /** A visit of a regular file is never a visit of a directory, so its path tells it apart. */
  lemma {:induction false} PreorderVisits(path: Path, node: Node)
    ensures forall e :: e in Preorder(path, node) && e.Visit? && e.regular ==> !e.isDir
    decreases node, 1, 0
  {
    if node.Dir? {
      SortedNamesListed(node.listing);
      PreorderNamesVisits(path, node, SortedNames(node.listing));
    }
  }

  lemma {:induction false} PreorderNamesVisits(path: Path, dir: Node, names: seq<string>)
    requires dir.Dir? && forall name :: name in names ==> Listed(dir.listing, name)
    ensures forall e :: e in PreorderNames(path, dir, names) && e.Visit? && e.regular ==> !e.isDir
    decreases dir, 0, |names|
  {
    if names != [] {
      ChildSmaller(dir, names[0]);
      PreorderVisits(path + [names[0]], Lookup(dir.listing, names[0]));
      PreorderNamesVisits(path, dir, names[1..]);
    }
  }

  /** On an error-free tree the walk collects exactly the wanted names, in preorder, each once. */
  lemma ScanCollects(excluded: Excludes, root: string, node: Node)
    requires ErrorFree(node) && DistinctNames(node) && ValidNames(node)
    ensures var w := WalkRoot(node, ScanCallback(excluded, root));
            var wanted := Wanted(excluded, root, Preorder([], node));
            && w.1 == Continue
            && Picks(excluded, root, w.0) == Names(root, wanted)
            && NoRepeat(Names(root, wanted))
            && Subsequence(wanted, Preorder([], node))
  {
    NodePicks(excluded, root, [], node, []);
    WantedNamesOnce(excluded, root, node);
    WantedSelects(excluded, root, Preorder([], node));
    assert Picks(excluded, root, []) == [];
  }

  /** A regular file of the tree such that neither it nor a directory it is in is excluded. */
  ghost predicate Indexable(excluded: Excludes, root: string, node: Node, path: Path) {
    NodeAt(node, path) == There(File(true)) && Clean(excluded, root, path)
  }

  lemma WantedCall(excluded: Excludes, root: string, node: Node, e: Event)
    ensures e in Wanted(excluded, root, Preorder([], node)) <==>
              Indexable(excluded, root, node, e.path) && e == Visit(e.path, false, true)
  {
    hide Wanted, Preorder, Clean, NodeAt;
    WantedSelects(excluded, root, Preorder([], node));
    PreorderCalls([], node, e);
    PreorderVisits([], node);
    assert e.path[0..] == e.path;
  }

  /** On an error-free tree, a name is collected exactly if it is the path name of such a file. */
  lemma CollectedFiles(excluded: Excludes, root: string, node: Node, name: string)
    requires ErrorFree(node) && DistinctNames(node) && ValidNames(node)
    ensures name in Picks(excluded, root, WalkRoot(node, ScanCallback(excluded, root)).0) <==>
            exists path :: Indexable(excluded, root, node, path) && TrimLeadingSlash(Render(root, path)) == name
  {
    hide Wanted, Preorder, Render, Picks, WalkRoot, ErrorFree, DistinctNames, ValidNames, Indexable;
    ScanCollects(excluded, root, node);
    var wanted := Wanted(excluded, root, Preorder([], node));
    if name in Names(root, wanted) {
      var i :| 0 <= i < |wanted| && Names(root, wanted)[i] == name;
      WantedCall(excluded, root, node, wanted[i]);
      assert TrimLeadingSlash(Render(root, wanted[i].path)) == name;
    }
    if path :| Indexable(excluded, root, node, path) && TrimLeadingSlash(Render(root, path)) == name {
      WantedCall(excluded, root, node, Visit(path, false, true));
      var i :| 0 <= i < |wanted| && wanted[i] == Visit(path, false, true);
      assert Names(root, wanted)[i] == name;
    }
  }

  /** The names of a path with slashes between them. */
  function Slashes(path: Path): string {
    if path == [] then "" else if |path| == 1 then path[0] else path[0] + "/" + Slashes(path[1..])
  }

  lemma {:induction false} SlashesPush(path: Path, name: string)
    requires path != []
    ensures Slashes(path + [name]) == Slashes(path) + "/" + name
  {
    if |path| == 1 {
      assert (path + [name])[1..] == [name];
    } else {
      assert (path + [name])[1..] == path[1..] + [name];
      SlashesPush(path[1..], name);
    }
  }

  /** The path name of a place is the root, a slash unless the root ends in one, and the names with slashes between. */
  lemma {:induction false} RenderIs(root: string, path: Path)
    requires ValidPath(path) && path != []
    ensures Render(root, path) == (if root == "" || root[|root| - 1] == '/' then root else root + "/") + Slashes(path)
  {
    var head, last := path[..|path| - 1], path[|path| - 1];
    assert path == head + [last];
    if head == [] {
      RenderNone(root);
    } else {
      RenderIs(root, head);
      RenderEnds(root, head);
      SlashesPush(head, last);
    }
  }

  /** So the name that is indexed is the names with slashes between, after the directory asked for, if that is not the
      root of the file system; it never starts with that root's slash. */
  lemma IndexedName(dir: string, path: Path)
    requires ValidPath(path) && path != []
    ensures TrimLeadingSlash(Render("/", path)) == Slashes(path)
    ensures dir != "" && dir[0] != '/' && dir[|dir| - 1] != '/' ==>
              TrimLeadingSlash(Render(dir, path)) == dir + "/" + Slashes(path)
    ensures dir != "" && dir[|dir| - 1] != '/' ==>
              TrimLeadingSlash(Render("/" + dir, path)) == dir + "/" + Slashes(path)
  {
    hide Render, Slashes;
    RenderIs("/", path);
    assert ("/" + Slashes(path))[1..] == Slashes(path);
    RenderIs(dir, path);
    RenderIs("/" + dir, path);
    if dir != "" && dir[|dir| - 1] != '/' {
      assert ("/" + dir)[|"/" + dir| - 1] == dir[|dir| - 1];
      assert (("/" + dir) + "/" + Slashes(path))[1..] == dir + "/" + Slashes(path);
    }
  }

  // ----- in place

  /** The names collected so far, as the callback's closure appends to them. */
  class Collector {
    var names: seq<string>
    const excluded: Excludes

    constructor (excluded: Excludes)
      ensures this.excluded == excluded && names == []
    {
      this.excluded, names := excluded, [];
    }

    /** The callback. */
    method Call(root: string, e: Event) returns (sig: Signal)
      modifies this
      ensures sig == ScanSignal(excluded, root, e)
      ensures names == old(names) + Picked(excluded, root, e)
    {
      match e
      case ListError(_, error) =>
        sig := Fail(error);
      case StatError(_, error) =>
        sig := Fail(error);
      case Visit(path, isDir, regular) =>
        sig := Continue;
        if excluded(Render(root, path)) {
          if isDir {
            sig := SkipDir;
          }
        } else if !isDir && regular {
          names := names + [TrimLeadingSlash(Render(root, path))];
        }
    }

    /** The recursive walk with this callback: same calls, same signal, the names of the calls appended. */
    method WalkInto(root: string, path: Path, node: Node, ghost h: seq<Event>, ghost base: seq<string>)
      returns (sig: Signal, ghost h': seq<Event>)
      requires !node.Missing? && names == base + Picks(excluded, root, h)
      modifies this
      ensures (h', sig) == WalkNode(path, node, ScanCallback(excluded, root), h)
      ensures names == base + Picks(excluded, root, h')
      decreases node, 1
    {
      sig := Call(root, VisitOf(path, node));
      h' := h + [VisitOf(path, node)];
      PicksPush(excluded, root, h, VisitOf(path, node));
      if sig != Continue {
        if node.IsDir() && sig == SkipDir {
          sig := Continue;
        }
        return;
      }
      if !node.IsDir() {
        return;
      }
      if node.Unreadable? {
        sig := Call(root, ListError(path, node.e));
        PicksPush(excluded, root, h', ListError(path, node.e));
        h' := h' + [ListError(path, node.e)];
        return;
      }
      var list := ReadDirNames(node.listing);
      SortedNamesListed(node.listing);
      sig, h' := WalkList(root, path, node, list, h', base);
    }

    method WalkList(root: string, path: Path, dir: Node, list: seq<string>,
                    ghost h: seq<Event>, ghost base: seq<string>)
      returns (sig: Signal, ghost h': seq<Event>)
      requires dir.Dir? && forall name :: name in list ==> Listed(dir.listing, name)
      requires names == base + Picks(excluded, root, h)
      modifies this
      ensures (h', sig) == WalkNames(path, dir, list, ScanCallback(excluded, root), h)
      ensures names == base + Picks(excluded, root, h')
      decreases dir, 0
    {
      hide WalkNode, Picks, Render;
      h' := h;
      ghost var f := ScanCallback(excluded, root);
      for i := 0 to |list|
        invariant names == base + Picks(excluded, root, h')
        invariant WalkNames(path, dir, list, f, h) == WalkNames(path, dir, list[i..], f, h')
      {
        var p, child := path + [list[i]], Lookup(dir.listing, list[i]);
        assert list[i..][0] == list[i] && list[i..][1..] == list[i + 1..];
        if child.Missing? {
          PicksPush(excluded, root, h', StatError(p, child.e));
          sig := Call(root, StatError(p, child.e));
          h' := h' + [StatError(p, child.e)];
          if sig != Continue && sig != SkipDir {
            return Continue, h';
          }
        } else {
          ChildSmaller(dir, list[i]);
          sig, h' := WalkInto(root, p, child, h', base);
          if sig != Continue {
            if !child.IsDir() || sig != SkipDir {
              return;
            }
          }
        }
      }
      sig := Continue;
    }

    /** Walk from a root, which may not exist. */
    method WalkFrom(root: string, node: Node) returns (sig: Signal)
      modifies this
      ensures sig == WalkRoot(node, ScanCallback(excluded, root)).1
      ensures names == old(names) + Picks(excluded, root, WalkRoot(node, ScanCallback(excluded, root)).0)
    {
      if node.Missing? {
        sig := Call(root, StatError([], node.e));
        PicksPush(excluded, root, [], StatError([], node.e));
        assert [] + [StatError([], node.e)] == [StatError([], node.e)];
      } else {
        ghost var h;
        sig, h := WalkInto(root, [], node, [], names);
      }
    }

    /** The files of the query that are files, then what each directory's walk collects. The error returned
        is that of the last walk only. */
    method Scan(files: seq<string>, dirs: seq<string>, fs: string -> Node) returns (err: Signal)
      requires names == []
      modifies this
      ensures names == FileNames(files, fs) + DirNames(excluded, dirs, fs)
      ensures err == if dirs == [] then Continue
                     else WalkRoot(fs(dirs[|dirs| - 1]), ScanCallback(excluded, dirs[|dirs| - 1])).1
    {
      hide FileNames, DirNames, WalkRoot;
      err := Continue;
      NoNames(excluded, files, dirs, fs);
      for i := 0 to |files|
        invariant names == FileNames(files[..i], fs)
      {
        NextFile(files, i, fs);
        var node := fs(TrimLeadingSlash(files[i]));
        if !node.Missing? && !node.IsDir() {
          names := names + [files[i]];
        }
      }
      assert files[..|files|] == files;
      ghost var base := names;
      for i := 0 to |dirs|
        invariant names == base + DirNames(excluded, dirs[..i], fs)
        invariant err == if i == 0 then Continue else WalkRoot(fs(dirs[i - 1]), ScanCallback(excluded, dirs[i - 1])).1
      {
        NextDir(excluded, dirs, i, fs);
        err := WalkFrom(dirs[i], fs(dirs[i]));
      }
      assert dirs[..|dirs|] == dirs;
    }
  }

  lemma NoNames(excluded: Excludes, files: seq<string>, dirs: seq<string>, fs: string -> Node)
    ensures FileNames(files[..0], fs) == [] && DirNames(excluded, dirs[..0], fs) == []
  {
  }

  lemma NextFile(files: seq<string>, i: nat, fs: string -> Node)
    requires i < |files|
    ensures FileNames(files[..i + 1], fs)
         == FileNames(files[..i], fs) + if IsFile(fs(TrimLeadingSlash(files[i]))) then [files[i]] else []
  {
    assert files[..i + 1][..i] == files[..i];
  }

  lemma NextDir(excluded: Excludes, dirs: seq<string>, i: nat, fs: string -> Node)
    requires i < |dirs|
    ensures DirNames(excluded, dirs[..i + 1], fs)
         == DirNames(excluded, dirs[..i], fs)
            + Picks(excluded, dirs[i], WalkRoot(fs(dirs[i]), ScanCallback(excluded, dirs[i])).0)
  {
    hide Picks, WalkRoot;
    assert dirs[..i + 1][..i] == dirs[..i];
  }

  /** There, and not a directory. */
  predicate IsFile(node: Node) {
    !node.Missing? && !node.IsDir()
  }

  function FileNames(files: seq<string>, fs: string -> Node): seq<string> {
    if files == [] then []
    else
      var name := files[|files| - 1];
      var node := fs(TrimLeadingSlash(name));
      FileNames(files[..|files| - 1], fs) + if IsFile(node) then [name] else []
  }

  function DirNames(excluded: Excludes, dirs: seq<string>, fs: string -> Node): seq<string> {
    if dirs == [] then []
    else
      var dir := dirs[|dirs| - 1];
      DirNames(excluded, dirs[..|dirs| - 1], fs)
      + Picks(excluded, dir, WalkRoot(fs(dir), ScanCallback(excluded, dir)).0)
  }

  /** On error-free trees, what the directories contribute is what is wanted in each, one after the other. */
  lemma {:induction false} DirNamesWanted(excluded: Excludes, dirs: seq<string>, fs: string -> Node)
    requires forall d :: d in dirs ==> ErrorFree(fs(d)) && DistinctNames(fs(d)) && ValidNames(fs(d))
    ensures DirNames(excluded, dirs, fs) == WantedNames(excluded, dirs, fs)
  {
    if dirs != [] {
      var init, d := dirs[..|dirs| - 1], dirs[|dirs| - 1];
      ScanCollects(excluded, d, fs(d));
      DirNamesWanted(excluded, init, fs);
    }
  }

  ghost function WantedNames(excluded: Excludes, dirs: seq<string>, fs: string -> Node): seq<string> {
    if dirs == [] then []
    else
      var d := dirs[|dirs| - 1];
      WantedNames(excluded, dirs[..|dirs| - 1], fs) + Names(d, Wanted(excluded, d, Preorder([], fs(d))))
  }
}
