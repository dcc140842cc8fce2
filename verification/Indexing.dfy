/** An index request: its validation, and the files of its repository that end up in the shards. */
module Indexing {
  import opened Walk
  import opened WalkProofs
  import opened Scanner
  import opened Shards
  import Repos

  datatype Invalid = NoKey | NothingToIndex | RootNotAbsolute | DirsAbsolute

  datatype Validity = Valid | ValueError(what: Invalid)

  predicate IsAbs(path: string) {
    path != "" && path[0] == '/'
  }

  /** File systems are rooted, so '.' is seen as '/'. */
  function Rooted(dir: string): string {
    if dir == "." then "/" else dir
  }

  predicate BadDir(dir: string) {
    dir != "/" && IsAbs(dir)
  }

  const MaxShards: int := 32

  class IndexQuery {
    var key: string
    var root: string
    var dirs: seq<string>
    var files: seq<string>

    constructor (key: string, root: string, dirs: seq<string>, files: seq<string>)
      ensures this.key == key && this.root == root && this.dirs == dirs && this.files == files
    {
      this.key, this.root, this.dirs, this.files := key, root, dirs, files;
    }

    /** Validates the request; a valid one ends up with each directory once, in no particular order. */
    method Normalize() returns (err: Validity)
      modifies this`dirs
      ensures err == if key == "" then ValueError(NoKey)
                     else if old(dirs) == [] && files == [] then ValueError(NothingToIndex)
                     else if root == "" || root[0] != '/' then ValueError(RootNotAbsolute)
                     else if exists dir :: dir in old(dirs) && |dir| > 1 && dir[0] == '/' then ValueError(DirsAbsolute)
                     else Valid
      ensures err != Valid ==> dirs == old(dirs)
      ensures err == Valid ==> NoRepeat(dirs)
      ensures err == Valid ==> forall dir :: dir in dirs <==>
                (dir in old(dirs) && dir != ".") || (dir == "/" && "." in old(dirs))
    {
      if key == "" {
        return ValueError(NoKey);
      } else if dirs == [] && files == [] {
        return ValueError(NothingToIndex);
      } else if !IsAbs(root) {
        return ValueError(RootNotAbsolute);
      }
      var seen: set<string> := {};
      for i := 0 to |dirs|
        invariant forall j :: 0 <= j < i ==> !BadDir(dirs[j]) && Rooted(dirs[j]) in seen
        invariant forall dir :: dir in seen ==> exists j :: 0 <= j < i && Rooted(dirs[j]) == dir
      {
        if dirs[i] != "/" && IsAbs(dirs[i]) {
          assert BadDir(dirs[i]);
          return ValueError(DirsAbsolute);
        }
        seen := seen + {Rooted(dirs[i])};
      }
      ghost var all := seen;
      var once := [];
      while seen != {}
        invariant NoRepeat(once) && seen <= all
        invariant forall dir :: dir in once <==> dir in all && dir !in seen
        decreases seen
      {
        var dir :| dir in seen;
        once := once + [dir];
        seen := seen - {dir};
      }
      dirs := once;
      err := Valid;
    }
  }

  /** The number of shards written for a configured number. */
  function ShardCount(configured: int): (shards: int)
    ensures configured == 0 ==> shards == 1
    ensures 1 <= configured <= 32 ==> shards == configured
    ensures configured > 32 ==> shards == 32
  {
    var n := if configured == 0 then 1 else configured;
    if n > MaxShards then MaxShards else n
  }

  /** Adds up the counts the workers reported. */
  method CountFiles(out: seq<nat>) returns (numFiles: nat)
    ensures numFiles == Sum(Count(), out)
  {
    numFiles := 0;
    for i := 0 to |out|
      invariant numFiles == Sum(Count(), out[..i])
    {
      SumPush(Count(), out[..i], out[i]);
      assert out[..i + 1] == out[..i] + [out[i]];
      numFiles := numFiles + out[i];
    }
    assert out[..|out|] == out;
  }

  lemma {:induction false} OnceInMultiset(names: seq<string>, name: string)
    requires NoRepeat(names)
    ensures multiset(names)[name] == if name in names then 1 else 0
  {
    if names != [] {
      OnceInMultiset(names[1..], name);
      assert names == [names[0]] + names[1..];
    }
  }

  /** How many of the directories have the name among their wanted files. */
  ghost function RootsWith(excluded: Excludes, dirs: seq<string>, fs: string -> Node, name: string): nat {
    if dirs == [] then 0
    else
      var d := dirs[|dirs| - 1];
      RootsWith(excluded, dirs[..|dirs| - 1], fs, name)
      + if name in Names(d, Wanted(excluded, d, Preorder([], fs(d)))) then 1 else 0
  }

  /** How often a query asks for a name: each time it is given as a file, and once for each directory it is in. */
  ghost function TimesWanted(excluded: Excludes, files: seq<string>, dirs: seq<string>, fs: string -> Node,
                             name: string): nat {
    (if fs(TrimLeadingSlash(name)).File? then multiset(files)[name] else 0) + RootsWith(excluded, dirs, fs, name)
  }

  lemma {:induction false} FileNamesCount(files: seq<string>, fs: string -> Node, name: string)
    ensures multiset(FileNames(files, fs))[name]
         == if fs(TrimLeadingSlash(name)).File? then multiset(files)[name] else 0
  {
    if files != [] {
      FileNamesCount(files[..|files| - 1], fs, name);
      assert files == files[..|files| - 1] + [files[|files| - 1]];
    }
  }

  ghost predicate CleanTrees(dirs: seq<string>, fs: string -> Node) {
    forall d :: d in dirs ==> ErrorFree(fs(d)) && DistinctNames(fs(d)) && ValidNames(fs(d))
  }

  lemma {:induction false} WantedNamesCount(excluded: Excludes, dirs: seq<string>, fs: string -> Node, name: string)
    requires CleanTrees(dirs, fs)
    ensures multiset(WantedNames(excluded, dirs, fs))[name] == RootsWith(excluded, dirs, fs, name)
  {
    hide WalkRoot, Wanted, Preorder, Picks, ErrorFree, DistinctNames, ValidNames;
    if dirs != [] {
      var d := dirs[|dirs| - 1];
      WantedNamesCount(excluded, dirs[..|dirs| - 1], fs, name);
      ScanCollects(excluded, d, fs(d));
      OnceInMultiset(Names(d, Wanted(excluded, d, Preorder([], fs(d)))), name);
    }
  }

  /** The names the scanner hands to the workers. */
  function ScannedNames(excluded: Excludes, files: seq<string>, dirs: seq<string>, fs: string -> Node): seq<string> {
    FileNames(files, fs) + DirNames(excluded, dirs, fs)
  }

  lemma ScannedCount(excluded: Excludes, files: seq<string>, dirs: seq<string>, fs: string -> Node, name: string)
    requires CleanTrees(dirs, fs)
    ensures multiset(ScannedNames(excluded, files, dirs, fs))[name] == TimesWanted(excluded, files, dirs, fs, name)
  {
    hide FileNames, DirNames, WantedNames, RootsWith, ErrorFree, DistinctNames, ValidNames;
    DirNamesWanted(excluded, dirs, fs);
    FileNamesCount(files, fs, name);
    WantedNamesCount(excluded, dirs, fs, name);
  }

  /** For the files and the error-free directories of a query: whatever the interleaving of the workers, each name
      that can be opened is in the shards exactly as often as the query asks for it, no other name is, and the number
      of files recorded is the number of those entries. */
  lemma IndexedExactly(excluded: Excludes, files: seq<string>, dirs: seq<string>, fs: string -> Node,
                       opens: string -> bool, k: nat, run: seq<Action>)
    requires CleanTrees(dirs, fs) && 0 < k
    requires var names := ScannedNames(excluded, files, dirs, fs);
             Schedule(opens, Init(names, k), run) && Finished(Exec(opens, Init(names, k), run))
    ensures var s := Exec(opens, Init(ScannedNames(excluded, files, dirs, fs), k), run);
            && (forall name :: Indexed(s)[name] ==
                  if opens(name) then TimesWanted(excluded, files, dirs, fs, name) else 0)
            && Sum(Count(), s.out) == |Indexed(s)|
  {
    hide Schedule, Exec, Union, Sum, ScannedNames, TimesWanted, CleanTrees;
    var names := ScannedNames(excluded, files, dirs, fs);
    AllIndexed(opens, names, k, run);
    forall name
      ensures Indexed(Exec(opens, Init(names, k), run))[name] ==
                if opens(name) then TimesWanted(excluded, files, dirs, fs, name) else 0
    {
      OpenNamesCount(opens, names, name);
      ScannedCount(excluded, files, dirs, fs, name);
    }
  }

  /** The shards hold no file twice exactly if no file that opens is asked for twice. */
  lemma IndexedOnceIff(excluded: Excludes, files: seq<string>, dirs: seq<string>, fs: string -> Node,
                       opens: string -> bool, k: nat, run: seq<Action>)
    requires CleanTrees(dirs, fs) && 0 < k
    requires var names := ScannedNames(excluded, files, dirs, fs);
             Schedule(opens, Init(names, k), run) && Finished(Exec(opens, Init(names, k), run))
    ensures (forall name ::
               Indexed(Exec(opens, Init(ScannedNames(excluded, files, dirs, fs), k), run))[name] <= 1)
            <==> forall name :: opens(name) ==> TimesWanted(excluded, files, dirs, fs, name) <= 1
  {
    hide Schedule, Exec, Union, Sum, ScannedNames, TimesWanted, CleanTrees, Indexed;
    IndexedExactly(excluded, files, dirs, fs, opens, k, run);
    var s := Exec(opens, Init(ScannedNames(excluded, files, dirs, fs), k), run);
    forall name ensures opens(name) ==> Indexed(s)[name] == TimesWanted(excluded, files, dirs, fs, name) {
    }
  }

  /** The root holds a directory "d" with the file "f"; "d" is that directory. */
  function Nested(name: string): Node {
    var d := Dir([Entry("f", File(true))]);
    if name == "/" then Dir([Entry("d", d)]) else if name == "d" then d else File(true)
  }

  /** A query for a directory and one within it asks for a common file twice. */
  lemma NestedTwice()
    ensures CleanTrees(["/", "d"], Nested)
    ensures TimesWanted((_: string) => false, [], ["/", "d"], Nested, "d/f") == 2
  {
    hide Wanted, Preorder;
    var all: Excludes := (_: string) => false;
    var dirs := ["/", "d"];
    NestedInRoot(all);
    NestedInDir(all);
    assert dirs[..1] == ["/"] && ["/"][..0] == [];
    assert RootsWith(all, [], Nested, "d/f") == 0;
    assert RootsWith(all, ["/"], Nested, "d/f") == 1;
    assert FileNames([], Nested) == [];
    SingleTree("f", File(true));
    SingleTree("d", Nested("d"));
    forall d | d in dirs
      ensures ErrorFree(Nested(d)) && DistinctNames(Nested(d)) && ValidNames(Nested(d))
    {
    }
  }

  /** A directory with one entry. */
  lemma SingleTree(name: string, node: Node)
    requires ErrorFree(node) && DistinctNames(node) && ValidNames(node) && ValidName(name)
    ensures var dir := Dir([Entry(name, node)]); ErrorFree(dir) && DistinctNames(dir) && ValidNames(dir)
  {
    assert NamesOf([Entry(name, node)]) == [name];
  }

  lemma SingleNames(name: string, node: Node)
    ensures var listing := [Entry(name, node)];
            SortedNames(listing) == [name] && Listed(listing, name) && Lookup(listing, name) == node
  {
    hide Sort;
    var listing := [Entry(name, node)];
    assert NamesOf(listing) == [name] && listing[0].name == name;
    SortedUnique(SortedNames(listing), [name]);
  }

  lemma SingleAt(name: string, node: Node, rest: Path)
    ensures NodeAt(Dir([Entry(name, node)]), [name] + rest) == NodeAt(node, rest)
  {
    hide Lookup, Listed;
    SingleNames(name, node);
    assert ([name] + rest)[1..] == rest;
  }

  lemma WantedName(excluded: Excludes, root: string, node: Node, path: Path, name: string)
    requires Indexable(excluded, root, node, path) && TrimLeadingSlash(Render(root, path)) == name
    ensures name in Names(root, Wanted(excluded, root, Preorder([], node)))
  {
    hide Wanted, Preorder, Render, Indexable;
    var wanted := Wanted(excluded, root, Preorder([], node));
    WantedCall(excluded, root, node, Visit(path, false, true));
    var i :| 0 <= i < |wanted| && wanted[i] == Visit(path, false, true);
    assert Names(root, wanted)[i] == name;
  }

  lemma NestedInDir(all: Excludes)
    requires forall name :: !all(name)
    ensures "d/f" in Names("d", Wanted(all, "d", Preorder([], Nested("d"))))
  {
    hide Wanted, Render, Preorder, NodeAt;
    NestedAt();
    DirRender();
    WantedName(all, "d", Nested("d"), ["f"], "d/f");
  }

  lemma DirRender()
    ensures TrimLeadingSlash(Render("d", ["f"])) == "d/f"
  {
    assert ["f"][..0] == [];
    assert Render("d", []) == "d" && Render("d", ["f"]) == "d/f";
  }

  lemma NestedInRoot(all: Excludes)
    requires forall name :: !all(name)
    ensures "d/f" in Names("/", Wanted(all, "/", Preorder([], Nested("/"))))
  {
    hide Wanted, Render, Preorder, NodeAt;
    NestedAt();
    NestedRender();
    WantedName(all, "/", Nested("/"), ["d", "f"], "d/f");
  }

  lemma NestedAt()
    ensures NodeAt(Nested("d"), ["f"]) == There(File(true))
    ensures NodeAt(Nested("/"), ["d", "f"]) == There(File(true))
  {
    SingleAt("f", File(true), []);
    SingleAt("d", Nested("d"), ["f"]);
    assert ["f"] + [] == ["f"] && ["d"] + ["f"] == ["d", "f"];
  }

  lemma NestedRender()
    ensures TrimLeadingSlash(Render("/", ["d", "f"])) == "d/f"
  {
    assert ["d", "f"][..1] == ["d"] && ["d"][..0] == [];
    assert Render("/", []) == "/" && Render("/", ["d"]) == "/d" && Render("/", ["d", "f"]) == "/d/f";
  }

  /** The scan of a query's files and directories hands over those names. */
  method ScanQuery(q: IndexQuery, excluded: Excludes, fs: string -> Node) returns (names: seq<string>, err: Signal)
    ensures names == ScannedNames(excluded, q.files, q.dirs, fs)
  {
    var c := new Collector(excluded);
    err := c.Scan(q.files, q.dirs, fs);
    names := c.names;
  }

  /** An invalid request; a shard file that cannot be created; or the state the repository ends in and the names it
      was to be indexed from. */
  datatype Reply = Refused(what: Invalid) | NoShard(n: nat) | Repository(state: Repos.State, scanned: seq<string>)

  /** Creates the files of the shards, in order, up to the first that cannot be created. */
  method CreateShards(shards: nat, creates: nat -> bool) returns (n: nat)
    ensures n <= shards && (forall j: nat :: j < n ==> creates(j)) && (n < shards ==> !creates(n))
  {
    n := 0;
    while n < shards && creates(n)
      invariant n <= shards && forall j: nat :: j < n ==> creates(j)
    {
      n := n + 1;
    }
  }

  /** A request that is valid answers without a repository if a shard file cannot be created. Else the error of the
      scan is overwritten by that of the workers: the repository ends up OK whenever the workers do not fail, even
      if no directory of it could be read. */
  method Index(q: IndexQuery, excluded: Excludes, fs: string -> Node, numShards: nat, creates: nat -> bool,
               workersFail: bool) returns (r: Reply)
    modifies q`dirs
    ensures r.Refused? <==> q.key == "" || (old(q.dirs) == [] && q.files == []) || q.root == "" || q.root[0] != '/'
                            || exists dir :: dir in old(q.dirs) && |dir| > 1 && dir[0] == '/'
    ensures r.NoShard? ==> r.n < ShardCount(numShards) && !creates(r.n) && forall j: nat :: j < r.n ==> creates(j)
    ensures r.Repository? ==> forall j: nat :: j < ShardCount(numShards) ==> creates(j)
    ensures r.Repository? ==> r.state == (if workersFail then Repos.ERROR else Repos.OK)
    ensures r.Repository? ==> r.scanned == ScannedNames(excluded, q.files, q.dirs, fs) && NoRepeat(q.dirs)
  {
    var valid := q.Normalize();
    if valid.ValueError? {
      return Refused(valid.what);
    }
    var shards := ShardCount(numShards);
    var created := CreateShards(shards, creates);
    if created < shards {
      return NoShard(created);
    }
    var names, scanErr := ScanQuery(q, excluded, fs);
    var failed := scanErr != Continue;
    failed := workersFail;
    r := Repository(if failed then Repos.ERROR else Repos.OK, names);
  }
}
