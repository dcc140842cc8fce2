/** Walking a file tree with a callback that can prune, skip or stop. */
module Walk {

  /** Names from the root of the walk down; the root itself is []. */
  type Path = seq<string>

  type Error = string

  /** A node as the file system answers for it: `Unreadable` is a directory that cannot be listed,
      `Missing` a name that cannot be looked up. A listing has no particular order. */
  datatype Node =
    | File(regular: bool)
    | Dir(listing: seq<Entry>)
    | Unreadable(e: Error)
    | Missing(e: Error)
  {
    predicate IsDir() {
      Dir? || Unreadable?
    }
  }

  datatype Entry = Entry(name: string, node: Node)

  /** What a callback answers: nil, SkipDir, or any other error. */
  datatype Signal = Continue | SkipDir | Fail(e: Error)

  /** A call of the callback. */
  datatype Event =
    | Visit(path: Path, isDir: bool, regular: bool)
    | ListError(path: Path, e: Error)
    | StatError(path: Path, e: Error)

  /** A callback with memory: its answer may depend on the calls made before. */
  type Callback = (seq<Event>, Event) -> Signal

  // ----- listing a directory

  predicate StrLeq(a: string, b: string) {
    a == [] || (b != [] && (a[0] < b[0] || (a[0] == b[0] && StrLeq(a[1..], b[1..]))))
  }

  /** The order of strings, byte by byte: a prefix comes first; else the first difference decides. */
  lemma {:induction false} StrLeqMeaning(a: string, b: string)
    ensures StrLeq(a, b) <==>
            a <= b || exists i :: 0 <= i < |a| && i < |b| && a[..i] == b[..i] && a[i] < b[i]
  {
    if a != [] && b != [] && a[0] == b[0] {
      StrLeqMeaning(a[1..], b[1..]);
      assert a == [a[0]] + a[1..] && b == [b[0]] + b[1..];
      if i :| 0 <= i < |a[1..]| && i < |b[1..]| && a[1..][..i] == b[1..][..i] && a[1..][i] < b[1..][i] {
        assert a[..i + 1] == [a[0]] + a[1..][..i] && b[..i + 1] == [b[0]] + b[1..][..i];
        assert a[i + 1] < b[i + 1];
      }
      if i :| 0 <= i < |a| && i < |b| && a[..i] == b[..i] && a[i] < b[i] {
        assert a[1..][..i - 1] == a[..i][1..] && b[1..][..i - 1] == b[..i][1..];
        assert a[1..][i - 1] < b[1..][i - 1];
      }
    } else if a != [] && b != [] {
      assert a[..0] == b[..0];
      forall i | 0 < i < |a| && i < |b| ensures a[..i] != b[..i] {
        assert a[..i][0] == a[0] && b[..i][0] == b[0];
      }
    }
  }

  lemma {:induction false} StrLeqTotal(a: string, b: string)
    ensures StrLeq(a, b) || StrLeq(b, a)
    ensures StrLeq(a, b) && StrLeq(b, a) ==> a == b
  {
    if a != [] && b != [] {
      StrLeqTotal(a[1..], b[1..]);
      assert a == [a[0]] + a[1..] && b == [b[0]] + b[1..];
    }
  }

  lemma {:induction false} StrLeqTransitive(a: string, b: string, c: string)
    requires StrLeq(a, b) && StrLeq(b, c)
    ensures StrLeq(a, c)
  {
    if a != [] && a[0] == b[0] == c[0] {
      StrLeqTransitive(a[1..], b[1..], c[1..]);
    }
  }

  ghost predicate Sorted(names: seq<string>) {
    forall i, j :: 0 <= i < j < |names| ==> StrLeq(names[i], names[j])
  }

  /** sort.Strings. */
  function Sort(names: seq<string>): (r: seq<string>)
    ensures Sorted(r) && multiset(r) == multiset(names)
  {
    if names == [] then []
    else
      assert names == [names[0]] + names[1..];
      Insert(names[0], Sort(names[1..]))
  }

  function Insert(name: string, names: seq<string>): (r: seq<string>)
    requires Sorted(names)
    ensures Sorted(r) && multiset(r) == multiset{name} + multiset(names)
  {
    if names == [] then [name]
    else
      (StrLeqTotal(name, names[0]);
       assert names == [names[0]] + names[1..];
       if StrLeq(name, names[0]) then
         InsertFront(name, names);
         [name] + names
       else
         var r := Insert(name, names[1..]);
         InsertLater(names[0], name, names[1..], r);
         [names[0]] + r)
  }

  lemma InsertFront(name: string, names: seq<string>)
    requires Sorted(names) && names != [] && StrLeq(name, names[0])
    ensures Sorted([name] + names)
  {
    forall j | 0 < j < |names| ensures StrLeq(name, names[j]) {
      StrLeqTransitive(name, names[0], names[j]);
    }
  }

  lemma InsertLater(first: string, name: string, rest: seq<string>, r: seq<string>)
    requires Sorted([first] + rest) && StrLeq(first, name) && Sorted(r)
    requires multiset(r) == multiset{name} + multiset(rest)
    ensures Sorted([first] + r)
  {
    forall j | 0 <= j < |r| ensures StrLeq(first, r[j]) {
      assert r[j] in multiset(r);
      assert r[j] == name || r[j] in multiset(rest);
      if r[j] != name {
        var k :| 0 <= k < |rest| && rest[k] == r[j];
        assert StrLeq(([first] + rest)[0], ([first] + rest)[k + 1]);
      }
    }
  }

  lemma SameFirst(a: seq<string>, b: seq<string>)
    requires Sorted(a) && Sorted(b) && multiset(a) == multiset(b) && a != [] && b != []
    ensures a[0] == b[0]
  {
    hide StrLeq;
    assert a[0] in multiset(a) && b[0] in multiset(b);
    assert a[0] in multiset(b) && b[0] in multiset(a);
    var i :| 0 <= i < |a| && a[i] == b[0];
    var j :| 0 <= j < |b| && b[j] == a[0];
    StrLeqTotal(a[0], b[0]);
  }

  lemma MultisetTail(a: seq<string>)
    requires a != []
    ensures multiset(a[1..]) == multiset(a) - multiset{a[0]}
  {
    assert a == [a[0]] + a[1..];
  }

  /** A multiset of names has one sorted sequence, so the order of a listing does not matter. */
  lemma {:induction false} SortedUnique(a: seq<string>, b: seq<string>)
    requires Sorted(a) && Sorted(b) && multiset(a) == multiset(b)
    ensures a == b
    decreases |a|
  {
    hide StrLeq;
    assert |multiset(a)| == |a| && |multiset(b)| == |b|;
    if a != [] {
      SameFirst(a, b);
      MultisetTail(a);
      MultisetTail(b);
      SortedUnique(a[1..], b[1..]);
      assert a == [a[0]] + a[1..] && b == [b[0]] + b[1..];
    }
  }

  ghost function NamesOf(listing: seq<Entry>): seq<string> {
    seq(|listing|, i requires 0 <= i < |listing| => listing[i].name)
  }

  function SortedNames(listing: seq<Entry>): (names: seq<string>)
    ensures Sorted(names) && multiset(names) == multiset(NamesOf(listing))
  {
    Sort(seq(|listing|, i requires 0 <= i < |listing| => listing[i].name))
  }

  /** Collects the names of a listing and sorts them. */
  method ReadDirNames(listing: seq<Entry>) returns (names: seq<string>)
    ensures names == SortedNames(listing)
  {
    names := [];
    for i := 0 to |listing|
      invariant names == NamesOf(listing[..i])
    {
      names := names + [listing[i].name];
    }
    assert listing[..|listing|] == listing;
    names := Sort(names);
  }

  predicate Listed(listing: seq<Entry>, name: string) {
    exists i :: 0 <= i < |listing| && listing[i].name == name
  }

  /** The node a listed name stands for. */
  function Lookup(listing: seq<Entry>, name: string): (node: Node)
    requires Listed(listing, name)
    ensures Entry(name, node) in listing
  {
    if listing[0].name == name then listing[0].node else Lookup(listing[1..], name)
  }

  lemma SortedNamesListed(listing: seq<Entry>)
    ensures forall name :: name in SortedNames(listing) ==> Listed(listing, name)
  {
    forall name | name in SortedNames(listing)
      ensures Listed(listing, name)
    {
      assert name in multiset(NamesOf(listing));
      var i :| 0 <= i < |listing| && NamesOf(listing)[i] == name;
      assert listing[i].name == name;
    }
  }

  // ----- the walk

  function VisitOf(path: Path, node: Node): Event {
    Visit(path, node.IsDir(), node.File? && node.regular)
  }

  /** Visits a node and, if the callback wants it, what lies below. `h` is the history of calls. */
  function WalkNode(path: Path, node: Node, f: Callback, h: seq<Event>): (seq<Event>, Signal)
    requires !node.Missing?
    decreases node, 1, 0
  {
    var visit := VisitOf(path, node);
    var sig := f(h, visit);
    var h1 := h + [visit];
    if sig != Continue then
      if node.IsDir() && sig == SkipDir then (h1, Continue) else (h1, sig)
    else
      match node
      case File(_) => (h1, Continue)
      case Unreadable(e) => (h1 + [ListError(path, e)], f(h1, ListError(path, e)))
      case Dir(listing) =>
        SortedNamesListed(listing);
        WalkNames(path, node, SortedNames(listing), f, h1)
  }

  function WalkNames(path: Path, dir: Node, names: seq<string>, f: Callback, h: seq<Event>): (seq<Event>, Signal)
    requires dir.Dir? && forall name :: name in names ==> Listed(dir.listing, name)
    decreases dir, 0, |names|
  {
    if names == [] then (h, Continue)
    else
      var p := path + [names[0]];
      var child := Lookup(dir.listing, names[0]);
      ChildSmaller(dir, names[0]);
      if child.Missing? then
        var error := StatError(p, child.e);
        if f(h, error).Fail? then (h + [error], Continue)
        else WalkNames(path, dir, names[1..], f, h + [error])
      else
        var (h1, sig) := WalkNode(p, child, f, h);
        if sig != Continue && (!child.IsDir() || sig != SkipDir) then (h1, sig)
        else WalkNames(path, dir, names[1..], f, h1)
  }

  lemma ChildSmaller(dir: Node, name: string)
    requires dir.Dir? && Listed(dir.listing, name)
    ensures Lookup(dir.listing, name) < dir
  {
  }

  function WalkRoot(root: Node, f: Callback): (seq<Event>, Signal) {
    if root.Missing? then ([StatError([], root.e)], f([], StatError([], root.e)))
    else WalkNode([], root, f, [])
  }

  // ----- the declarative form: the list of all calls in preorder, scanned once with a skip

  function Preorder(path: Path, node: Node): seq<Event>
    decreases node, 1, 0
  {
    match node
    case Missing(e) => [StatError(path, e)]
    case File(_) => [VisitOf(path, node)]
    case Unreadable(e) => [VisitOf(path, node), ListError(path, e)]
    case Dir(listing) =>
      SortedNamesListed(listing);
      [VisitOf(path, node)] + PreorderNames(path, node, SortedNames(listing))
  }

  function PreorderNames(path: Path, dir: Node, names: seq<string>): seq<Event>
    requires dir.Dir? && forall name :: name in names ==> Listed(dir.listing, name)
    decreases dir, 0, |names|
  {
    if names == [] then []
    else
      ChildSmaller(dir, names[0]);
      Preorder(path + [names[0]], Lookup(dir.listing, names[0])) + PreorderNames(path, dir, names[1..])
  }

  datatype Skip = NoSkip | Below(path: Path)

  predicate Skipped(skip: Skip, e: Event) {
    skip.Below? && skip.path <= e.path
  }

  /** What the scan does after a call: stop with a signal, or go on, perhaps skipping everything at or below a path. */
  datatype Next = Stop(sig: Signal) | Go(skip: Skip)

  /** SkipDir at a directory skips it; at a file, the rest of the directory it is in. An error ends the walk,
      except that an error about a name that cannot be looked up only ends the directory it is in. */
  function After(e: Event, sig: Signal): Next {
    match sig
    case Continue => Go(NoSkip)
    case SkipDir =>
      if e.Visit? && e.isDir then Go(Below(e.path))
      else if e.path == [] then Stop(SkipDir)
      else if !e.Visit? then Go(NoSkip)
      else if |e.path| == 1 then Stop(SkipDir)
      else Go(Below(e.path[..|e.path| - 1]))
    case Fail(_) =>
      if e.StatError? && e.path != [] then Go(Below(e.path[..|e.path| - 1])) else Stop(sig)
  }

  function Scan(events: seq<Event>, skip: Skip, f: Callback, h: seq<Event>): (seq<Event>, Signal) {
    if events == [] then (h, Continue)
    else if Skipped(skip, events[0]) then Scan(events[1..], skip, f, h)
    else
      var h1 := h + [events[0]];
      match After(events[0], f(h, events[0]))
      case Stop(sig) => (h1, sig)
      case Go(skip') => Scan(events[1..], skip', f, h1)
  }
}
