/** From the scanned files to what a client is told: the scan of every shard, merged over shards, repositories and
    hosts. */
module EndToEnd {
  import opened Text
  import opened GrepSpec
  import opened GrepSearch
  import opened Merge
  import opened MergeTheorems

  /** The search of one shard: its candidate files, the entries it came to, and its own count. */
  datatype ShardSearch = ShardSearch(names: seq<string>, leaves: LeafMap, num: nat)

  /** The search of one repository: those of its shards, as they arrive. Shards may share files. */
  datatype RepoSearch = RepoSearch(key: string, open: FileSystem, shards: seq<ShardSearch>)

  ghost function LinesOf(file: string, key: string, lines: set<nat>): set<Leaf> {
    set l | l in lines :: Leaf(file, key, l)
  }

  ghost function SetOf(names: seq<string>): set<string> {
    set name | name in names
  }

  function DataOf(open: FileSystem, name: string): Bytes {
    if open(name).Opened? then open(name).data else []
  }

  /** The lines to be reported of the files that are reported. */
  ghost function DueOf(test: LineTest, capacity: nat, pre: bool, open: FileSystem, key: string, files: set<string>)
    : set<Leaf>
  {
    set f, l | f in files && Reports(test, open, f) && l in ReportedLines(test, DataOf(open, f), capacity, pre)
      :: Leaf(f, key, l)
  }

  /** The matching lines of the files that are reported. */
  ghost function MatchingOf(test: LineTest, open: FileSystem, key: string, files: set<string>): set<Leaf> {
    set f, l | f in files && Reports(test, open, f) && l in HitLines(test, DataOf(open, f)) :: Leaf(f, key, l)
  }

  ghost function LineText(open: FileSystem, k: Leaf): Bytes {
    if 1 <= k.line <= |Lines(DataOf(open, k.file))|
    then Lines(DataOf(open, k.file))[k.line - 1] else []
  }

  /** The entries are exactly the lines to be reported, with their text. */
  ghost predicate LinesRight(open: FileSystem, leaves: LeafMap, due: set<Leaf>) {
    leaves.Keys == due && forall k :: k in leaves ==> leaves[k] == LineText(open, k)
  }

  ghost predicate ShardRight(test: LineTest, capacity: nat, pre: bool, open: FileSystem, key: string, s: ShardSearch) {
    LinesRight(open, s.leaves, DueOf(test, capacity, pre, open, key, SetOf(s.names)))
  }

  ghost predicate ShardsRight(test: LineTest, capacity: nat, pre: bool, r: RepoSearch) {
    forall i :: 0 <= i < |r.shards| ==> ShardRight(test, capacity, pre, r.open, r.key, r.shards[i])
  }

  // ----- one shard

  lemma LeafFor(test: LineTest, capacity: nat, pre: bool, key: string, names: seq<string>, open: FileSystem,
                matches: Matches, k: Leaf)
    requires Holds(test, open, capacity, pre, key, names, matches)
    ensures k in Leaves(matches) <==>
              k.repo == key && k.file in names && Reports(test, open, k.file)
              && k.line in ReportedLines(test, DataOf(open, k.file), capacity, pre)
    ensures k in Leaves(matches) ==> Leaves(matches)[k] == LineText(open, k)
  {
    hide Leaves, Reports, ReportedLines, Lines;
    LeafIn(matches, k);
    ReportsOpened(test, open, k.file);
    if k.file in matches && k.repo == key {
      assert key in matches[k.file].Keys;
    }
  }

  lemma ReportsOpened(test: LineTest, open: FileSystem, name: string)
    ensures Reports(test, open, name) ==> open(name).Opened?
  {
  }

  lemma InDue(test: LineTest, capacity: nat, pre: bool, open: FileSystem, key: string, files: set<string>, k: Leaf)
    ensures k in DueOf(test, capacity, pre, open, key, files) <==>
              k.repo == key && k.file in files && Reports(test, open, k.file)
              && k.line in ReportedLines(test, DataOf(open, k.file), capacity, pre)
  {
    hide Reports, ReportedLines;
    assert k == Leaf(k.file, k.repo, k.line);
  }

  /** The search of a shard, done with one buffer over its candidate files, has its lines right. */
  lemma SearchedRight(test: LineTest, capacity: nat, pre: bool, key: string, names: seq<string>, open: FileSystem,
                      matches: Matches, num: nat, err: bool)
    ensures Searched(test, open, capacity, pre, key, names, matches, num, err) ==>
              ShardRight(test, capacity, pre, open, key, ShardSearch(names, Leaves(matches), num))
  {
    hide Leaves, Holds, ReportedLines, Reports, DueOf, LineText;
    if Searched(test, open, capacity, pre, key, names, matches, num, err) {
      forall k
        ensures k in Leaves(matches) <==> k in DueOf(test, capacity, pre, open, key, SetOf(names))
        ensures k in Leaves(matches) ==> Leaves(matches)[k] == LineText(open, k)
      {
        LeafFor(test, capacity, pre, key, names, open, matches, k);
        InDue(test, capacity, pre, open, key, SetOf(names), k);
      }
    }
  }

  lemma {:induction false} LinesOfSize(file: string, key: string, lines: set<nat>)
    ensures |LinesOf(file, key, lines)| == |lines|
  {
    if lines != {} {
      var l :| l in lines;
      LinesOfSize(file, key, lines - {l});
      assert LinesOf(file, key, lines) == LinesOf(file, key, lines - {l}) + {Leaf(file, key, l)};
    } else {
      assert LinesOf(file, key, lines) == {};
    }
  }

  lemma MatchingPush(test: LineTest, open: FileSystem, key: string, names: seq<string>, name: string)
    ensures MatchingOf(test, open, key, SetOf(names + [name]))
         == MatchingOf(test, open, key, SetOf(names))
            + if Reports(test, open, name) then LinesOf(name, key, HitLines(test, DataOf(open, name))) else {}
    ensures name !in names && Reports(test, open, name) ==>
              MatchingOf(test, open, key, SetOf(names)) !! LinesOf(name, key, HitLines(test, DataOf(open, name)))
    ensures name in names && Reports(test, open, name) ==>
              LinesOf(name, key, HitLines(test, DataOf(open, name))) <= MatchingOf(test, open, key, SetOf(names))
  {
    hide Reports, HitLines;
  }

  /** Candidates that are reported are different. */
  ghost predicate NoneTwice(test: LineTest, open: FileSystem, names: seq<string>) {
    forall i, j :: 0 <= i < j < |names| && Reports(test, open, names[i]) ==> names[i] != names[j]
  }

  /** A shard's own count is the number of its matching lines exactly if no file it reports is a candidate twice; else
      it is more. */
  lemma {:induction false} ShardCountIff(test: LineTest, open: FileSystem, key: string, names: seq<string>)
    ensures TotalHits(test, open, names) >= |MatchingOf(test, open, key, SetOf(names))|
    ensures TotalHits(test, open, names) == |MatchingOf(test, open, key, SetOf(names))| <==>
            NoneTwice(test, open, names)
  {
    hide Reports, HitLines, MatchingOf;
    if names == [] {
      NothingMatching(test, open, key);
    } else {
      var init, name := names[..|names| - 1], names[|names| - 1];
      assert names == init + [name];
      ShardCountIff(test, open, key, init);
      MatchingPush(test, open, key, init, name);
      LinesOfSize(name, key, HitLines(test, DataOf(open, name)));
      HitsPositive(test, open, name);
      TwicePush(test, open, init, name);
      var before := MatchingOf(test, open, key, SetOf(init));
      var more := LinesOf(name, key, HitLines(test, DataOf(open, name)));
      if Reports(test, open, name) {
        if name in init {
          assert before + more == before;
        } else {
          assert |before + more| == |before| + |more|;
        }
      }
    }
  }

  lemma NothingMatching(test: LineTest, open: FileSystem, key: string)
    ensures MatchingOf(test, open, key, SetOf([])) == {}
  {
  }

  lemma HitsPositive(test: LineTest, open: FileSystem, name: string)
    ensures Hits(test, open, name) == if Reports(test, open, name) then |HitLines(test, DataOf(open, name))| else 0
    ensures Reports(test, open, name) ==> Hits(test, open, name) > 0
  {
  }

  lemma TwicePush(test: LineTest, open: FileSystem, init: seq<string>, name: string)
    ensures NoneTwice(test, open, init + [name]) <==>
            NoneTwice(test, open, init) && !(Reports(test, open, name) && name in init)
  {
    hide Reports;
    var names := init + [name];
    assert names[|init|] == name && forall i :: 0 <= i < |init| ==> names[i] == init[i];
  }

  // ----- one repository

  ghost function ResultsOf(ss: seq<ShardSearch>): seq<Result> {
    seq(|ss|, i requires 0 <= i < |ss| => Result(ss[i].leaves, ss[i].num))
  }

  /** What a repository's searcher comes to: the results of its shards merged one after the other. */
  ghost function RepoResult(r: RepoSearch): Result {
    MergeAll(ResultsOf(r.shards))
  }

  /** The candidate files of all shards. */
  ghost function FilesOf(r: RepoSearch): set<string> {
    set i, name | 0 <= i < |r.shards| && name in r.shards[i].names :: name
  }

  ghost function DueIn(test: LineTest, capacity: nat, pre: bool, r: RepoSearch): set<Leaf> {
    DueOf(test, capacity, pre, r.open, r.key, FilesOf(r))
  }

  lemma {:induction false} MergedTexts(rs: seq<Result>, open: FileSystem)
    requires forall i, k :: 0 <= i < |rs| && k in rs[i].leaves ==> rs[i].leaves[k] == LineText(open, k)
    ensures forall k :: k in MergeAll(rs).leaves ==> MergeAll(rs).leaves[k] == LineText(open, k)
  {
    hide LineText;
    if rs != [] {
      MergedTexts(rs[..|rs| - 1], open);
    }
  }

  lemma ShardLeaf(test: LineTest, capacity: nat, pre: bool, r: RepoSearch, i: nat, k: Leaf)
    requires i < |r.shards|
    ensures ShardRight(test, capacity, pre, r.open, r.key, r.shards[i]) ==>
              (k in r.shards[i].leaves <==> k.file in r.shards[i].names && k in DueIn(test, capacity, pre, r))
  {
    hide Reports, ReportedLines, DueOf, LineText;
    InDue(test, capacity, pre, r.open, r.key, SetOf(r.shards[i].names), k);
    InDue(test, capacity, pre, r.open, r.key, FilesOf(r), k);
    assert k.file in r.shards[i].names ==> k.file in FilesOf(r);
  }

  /** However its shards overlap, a repository's result has exactly the lines to be reported of its files. */
  lemma RepoRight(test: LineTest, capacity: nat, pre: bool, r: RepoSearch)
    ensures ShardsRight(test, capacity, pre, r) ==>
              LinesRight(r.open, RepoResult(r).leaves, DueIn(test, capacity, pre, r))
  {
    hide MergeAll, DueIn, LineText, DueOf;
    if ShardsRight(test, capacity, pre, r) {
      var rs := ResultsOf(r.shards);
      forall i, k | 0 <= i < |rs| && k in rs[i].leaves ensures rs[i].leaves[k] == LineText(r.open, k) {
        assert ShardRight(test, capacity, pre, r.open, r.key, r.shards[i]);
      }
      MergedTexts(rs, r.open);
      forall k ensures k in MergeAll(rs).leaves <==> k in DueIn(test, capacity, pre, r) {
        RepoLeaf(test, capacity, pre, r, k);
      }
    }
  }

  lemma RepoLeaf(test: LineTest, capacity: nat, pre: bool, r: RepoSearch, k: Leaf)
    ensures ShardsRight(test, capacity, pre, r) ==>
              (k in RepoResult(r).leaves <==> k in DueIn(test, capacity, pre, r))
  {
    hide MergeAll, ShardRight, DueOf, Reports, ReportedLines;
    if ShardsRight(test, capacity, pre, r) {
      var rs := ResultsOf(r.shards);
      MergeAllLeaves(rs, k);
      forall i | 0 <= i < |rs|
        ensures k in rs[i].leaves <==> k.file in r.shards[i].names && k in DueIn(test, capacity, pre, r)
      {
        ShardLeaf(test, capacity, pre, r, i, k);
      }
      InDue(test, capacity, pre, r.open, r.key, FilesOf(r), k);
      if k in DueIn(test, capacity, pre, r) {
        var i :| 0 <= i < |r.shards| && k.file in r.shards[i].names;
        assert k in rs[i].leaves;
      }
    }
  }

  /** A repository's own count is the number of its lines exactly if no two of its shards share one. */
  lemma RepoCountIff(r: RepoSearch)
    ensures RepoResult(r).num >= |RepoResult(r).leaves|
    ensures RepoResult(r).num == |RepoResult(r).leaves| <==> Disjoint(ResultsOf(r.shards))
  {
    hide Disjoint, MergeAll;
    CountsEveryLeaf(ResultsOf(r.shards));
  }

  // ----- one flat merge

  ghost function Flat(rs: seq<Result>): Tree {
    Node(seq(|rs|, i requires 0 <= i < |rs| => One(rs[i])))
  }

  lemma {:induction false} FlatMerge(rs: seq<Result>)
    ensures Value(Flat(rs)) == MergeAll(rs) && Inputs(Flat(rs)) == rs
  {
    hide Merged;
    if rs != [] {
      var init, r := rs[..|rs| - 1], rs[|rs| - 1];
      FlatMerge(init);
      var parts := Flat(rs).parts;
      assert parts[..|parts| - 1] == Flat(init).parts && parts[|parts| - 1] == One(r);
      assert Value(Flat(rs)) == MergeParts(parts) && Value(Flat(init)) == MergeParts(Flat(init).parts);
      assert Inputs(Flat(rs)) == InputsOfParts(parts);
      assert Inputs(Flat(init)) == InputsOfParts(Flat(init).parts);
      assert Value(One(r)) == r && Inputs(One(r)) == [r];
      assert rs == init + [r];
    }
  }

  lemma Twice(rs: seq<Result>, r: Result) returns (i: nat, j: nat)
    requires multiset(rs)[r] > 1
    ensures i < j < |rs| && rs[i] == rs[j] == r
  {
    j :| 0 <= j < |rs| && rs[j] == r;
    var before, after := rs[..j], rs[j + 1..];
    assert rs == before + [r] + after;
    assert multiset(rs) == multiset(before) + multiset{r} + multiset(after);
    if r in multiset(before) {
      i :| 0 <= i < |before| && before[i] == r;
    } else {
      assert r in multiset(after);
      var k :| 0 <= k < |after| && after[k] == r;
      i, j := j, j + 1 + k;
    }
  }

  lemma BagOfDisjoint(rs: seq<Result>)
    requires Disjoint(rs)
    ensures DisjointBag(multiset(rs))
  {
    forall a, b | a in multiset(rs) && b in multiset(rs) && a != b ensures a.leaves.Keys !! b.leaves.Keys {
      var i :| 0 <= i < |rs| && rs[i] == a;
      var j :| 0 <= j < |rs| && rs[j] == b;
      assert i < j || j < i;
    }
    forall a | a in multiset(rs) && multiset(rs)[a] > 1 ensures a.leaves == map[] {
      var i, j := Twice(rs, a);
      assert rs[i].leaves.Keys !! rs[j].leaves.Keys;
    }
  }

  // ----- the client

  ghost predicate DifferentKeys(repos: seq<RepoSearch>) {
    forall i, j :: 0 <= i < j < |repos| ==> repos[i].key != repos[j].key
  }

  ghost predicate AllRight(test: LineTest, capacity: nat, pre: bool, repos: seq<RepoSearch>) {
    forall i :: 0 <= i < |repos| ==> ShardsRight(test, capacity, pre, repos[i])
  }

  ghost function RepoResults(repos: seq<RepoSearch>): seq<Result> {
    seq(|repos|, i requires 0 <= i < |repos| => RepoResult(repos[i]))
  }

  /** The lines to be reported of all repositories. */
  ghost function AllDue(test: LineTest, capacity: nat, pre: bool, repos: seq<RepoSearch>): set<Leaf> {
    set i, k | 0 <= i < |repos| && k in DueIn(test, capacity, pre, repos[i]) :: k
  }

  /** The matching lines of all repositories. */
  ghost function AllMatching(test: LineTest, repos: seq<RepoSearch>): set<Leaf> {
    set i, k | 0 <= i < |repos| && k in MatchingOf(test, repos[i].open, repos[i].key, FilesOf(repos[i])) :: k
  }

  lemma RepoKeys(test: LineTest, capacity: nat, pre: bool, repos: seq<RepoSearch>, i: nat)
    requires i < |repos|
    ensures AllRight(test, capacity, pre, repos) ==>
              LinesRight(repos[i].open, RepoResults(repos)[i].leaves, DueIn(test, capacity, pre, repos[i]))
  {
    hide ShardsRight, LinesRight, DueIn, RepoResult;
    RepoRight(test, capacity, pre, repos[i]);
  }

  /** Results of different repositories have nothing in common. */
  lemma ReposDisjoint(test: LineTest, capacity: nat, pre: bool, repos: seq<RepoSearch>)
    requires DifferentKeys(repos)
    ensures AllRight(test, capacity, pre, repos) ==> Disjoint(RepoResults(repos))
  {
    hide AllRight, RepoResult, DueOf, Reports, ReportedLines, LineText;
    if AllRight(test, capacity, pre, repos) {
      var rs := RepoResults(repos);
      forall i, j | 0 <= i < j < |rs| ensures rs[i].leaves.Keys !! rs[j].leaves.Keys {
        RepoKeys(test, capacity, pre, repos, i);
        RepoKeys(test, capacity, pre, repos, j);
        forall k | k in rs[i].leaves ensures k !in rs[j].leaves {
          InDue(test, capacity, pre, repos[i].open, repos[i].key, FilesOf(repos[i]), k);
          InDue(test, capacity, pre, repos[j].open, repos[j].key, FilesOf(repos[j]), k);
        }
      }
    }
  }

  /** Merging disjoint results in any grouping and order unites them, and counts their entries. */
  lemma MergedUnion(rs: seq<Result>, t: Tree)
    requires Disjoint(rs) && t.Node? && multiset(Inputs(t)) == multiset(rs)
    ensures IsUnion(Value(t).leaves, rs) && Value(t).num == |Value(t).leaves|
  {
    hide Disjoint, DisjointBag, Value, Inputs, IsUnion, MergeAll;
    BagOfDisjoint(rs);
    FlatMerge(rs);
    MergeShapeIrrelevant(t, Flat(rs));
    TreeUnion(Flat(rs));
  }

  lemma UnionAt(m: LeafMap, rs: seq<Result>, k: Leaf)
    requires IsUnion(m, rs)
    ensures k in m <==> HasLeaf(rs, k)
    ensures forall i :: 0 <= i < |rs| && k in rs[i].leaves ==> k in m && m[k] == rs[i].leaves[k]
  {
  }

  lemma LineMerged(test: LineTest, capacity: nat, pre: bool, repos: seq<RepoSearch>, m: LeafMap, k: Leaf)
    requires IsUnion(m, RepoResults(repos))
    ensures AllRight(test, capacity, pre, repos) ==>
              && (k in m <==> k in AllDue(test, capacity, pre, repos))
              && forall i :: 0 <= i < |repos| && k in DueIn(test, capacity, pre, repos[i]) ==>
                   k in m && m[k] == LineText(repos[i].open, k)
  {
    hide AllRight, RepoResult, DueIn, LineText, IsUnion;
    if AllRight(test, capacity, pre, repos) {
      var rs := RepoResults(repos);
      UnionAt(m, rs, k);
      forall i | 0 <= i < |repos|
        ensures k in rs[i].leaves <==> k in DueIn(test, capacity, pre, repos[i])
        ensures k in rs[i].leaves ==> rs[i].leaves[k] == LineText(repos[i].open, k)
      {
        RepoKeys(test, capacity, pre, repos, i);
      }
      if k in AllDue(test, capacity, pre, repos) {
        var i :| 0 <= i < |repos| && k in DueIn(test, capacity, pre, repos[i]);
        assert k in rs[i].leaves;
      }
    }
  }

  /** The lines the client gets are exactly the lines to be reported of the repositories' files, each with its text,
      however shards share files and results are grouped and ordered on their way. */
  lemma ReportedLinesExactly(test: LineTest, capacity: nat, pre: bool, repos: seq<RepoSearch>, t: Tree)
    requires DifferentKeys(repos) && t.Node? && multiset(Inputs(t)) == multiset(RepoResults(repos))
    ensures AllRight(test, capacity, pre, repos) ==>
              && Value(t).leaves.Keys == AllDue(test, capacity, pre, repos)
              && forall i, k :: 0 <= i < |repos| && k in DueIn(test, capacity, pre, repos[i]) ==>
                   k in Value(t).leaves && Value(t).leaves[k] == LineText(repos[i].open, k)
  {
    hide AllRight, RepoResult, DueIn, LineText, Disjoint, Value, Inputs, IsUnion, RepoResults, LinesRight;
    if AllRight(test, capacity, pre, repos) {
      var rs := RepoResults(repos);
      ReposDisjoint(test, capacity, pre, repos);
      MergedUnion(rs, t);
      forall k
        ensures k in Value(t).leaves <==> k in AllDue(test, capacity, pre, repos)
        ensures forall i :: 0 <= i < |repos| && k in DueIn(test, capacity, pre, repos[i]) ==>
                  k in Value(t).leaves && Value(t).leaves[k] == LineText(repos[i].open, k)
      {
        LineMerged(test, capacity, pre, repos, Value(t).leaves, k);
      }
    }
  }

  /** No leading context line is recorded in any reported file. */
  ghost predicate NoContext(test: LineTest, capacity: nat, pre: bool, r: RepoSearch) {
    forall f :: f in FilesOf(r) && Reports(test, r.open, f) ==>
      ReportedLines(test, DataOf(r.open, f), capacity, pre) == HitLines(test, DataOf(r.open, f))
  }

  lemma HitsReported(test: LineTest, file: Bytes, capacity: nat, pre: bool)
    ensures HitLines(test, file) <= ReportedLines(test, file, capacity, pre)
    ensures !pre ==> ReportedLines(test, file, capacity, pre) == HitLines(test, file)
  {
  }

  lemma InMatching(test: LineTest, open: FileSystem, key: string, files: set<string>, k: Leaf)
    ensures k in MatchingOf(test, open, key, files) <==>
              k.repo == key && k.file in files && Reports(test, open, k.file)
              && k.line in HitLines(test, DataOf(open, k.file))
  {
    hide Reports, HitLines;
    assert k == Leaf(k.file, k.repo, k.line);
  }

  lemma MatchingDue(test: LineTest, capacity: nat, pre: bool, repos: seq<RepoSearch>)
    ensures AllMatching(test, repos) <= AllDue(test, capacity, pre, repos)
  {
    hide Reports, HitLines, ReportedLines, DueOf, MatchingOf;
    forall k | k in AllMatching(test, repos) ensures k in AllDue(test, capacity, pre, repos) {
      var i :| 0 <= i < |repos| && k in MatchingOf(test, repos[i].open, repos[i].key, FilesOf(repos[i]));
      var r := repos[i];
      InMatching(test, r.open, r.key, FilesOf(r), k);
      HitsReported(test, DataOf(r.open, k.file), capacity, pre);
      InDue(test, capacity, pre, r.open, r.key, FilesOf(r), k);
      assert k in DueIn(test, capacity, pre, repos[i]);
    }
  }

  /** Nothing but matching lines is due exactly if no context line is recorded. */
  lemma OnlyMatchingIff(test: LineTest, capacity: nat, pre: bool, repos: seq<RepoSearch>)
    requires DifferentKeys(repos)
    ensures AllDue(test, capacity, pre, repos) == AllMatching(test, repos) <==>
            forall i :: 0 <= i < |repos| ==> NoContext(test, capacity, pre, repos[i])
  {
    hide Reports, HitLines, ReportedLines, DueOf, MatchingOf;
    if AllDue(test, capacity, pre, repos) == AllMatching(test, repos) {
      forall i | 0 <= i < |repos| ensures NoContext(test, capacity, pre, repos[i]) {
        OnlyMatchingIn(test, capacity, pre, repos, i);
      }
    }
    if forall i :: 0 <= i < |repos| ==> NoContext(test, capacity, pre, repos[i]) {
      forall k | k in AllDue(test, capacity, pre, repos) ensures k in AllMatching(test, repos) {
        var i :| 0 <= i < |repos| && k in DueIn(test, capacity, pre, repos[i]);
        var r := repos[i];
        InDue(test, capacity, pre, r.open, r.key, FilesOf(r), k);
        InMatching(test, r.open, r.key, FilesOf(r), k);
        assert NoContext(test, capacity, pre, r);
        assert k in MatchingOf(test, repos[i].open, repos[i].key, FilesOf(repos[i]));
      }
      MatchingDue(test, capacity, pre, repos);
    }
  }

  lemma OnlyMatchingIn(test: LineTest, capacity: nat, pre: bool, repos: seq<RepoSearch>, i: nat)
    requires DifferentKeys(repos) && i < |repos| && AllDue(test, capacity, pre, repos) == AllMatching(test, repos)
    ensures NoContext(test, capacity, pre, repos[i])
  {
    hide Reports, HitLines, ReportedLines, DueOf, MatchingOf;
    var r := repos[i];
    forall f | f in FilesOf(r) && Reports(test, r.open, f)
      ensures ReportedLines(test, DataOf(r.open, f), capacity, pre) == HitLines(test, DataOf(r.open, f))
    {
      HitsReported(test, DataOf(r.open, f), capacity, pre);
      forall l | l in ReportedLines(test, DataOf(r.open, f), capacity, pre)
        ensures l in HitLines(test, DataOf(r.open, f))
      {
        var k := Leaf(f, r.key, l);
        InDue(test, capacity, pre, r.open, r.key, FilesOf(r), k);
        assert k in DueIn(test, capacity, pre, repos[i]);
        assert k in AllMatching(test, repos);
        var j :| 0 <= j < |repos| && k in MatchingOf(test, repos[j].open, repos[j].key, FilesOf(repos[j]));
        InMatching(test, repos[j].open, repos[j].key, FilesOf(repos[j]), k);
        assert i == j;
      }
    }
  }

  lemma SubsetSize(a: set<Leaf>, b: set<Leaf>)
    requires a <= b
    ensures |a| <= |b| && (|a| == |b| <==> a == b)
  {
    assert b == a + (b - a) && |b| == |a| + |b - a|;
  }

  /** The number of matches a client is told is the number of lines it gets: however shards share files and results
      are grouped and ordered, nothing is counted twice. It is at least the number of matching lines in the reported
      files, and it is that number exactly when no context line was recorded. */
  lemma ReportedCount(test: LineTest, capacity: nat, pre: bool, repos: seq<RepoSearch>, t: Tree)
    requires DifferentKeys(repos) && t.Node? && multiset(Inputs(t)) == multiset(RepoResults(repos))
    ensures AllRight(test, capacity, pre, repos) ==>
              && Value(t).num == |Value(t).leaves| == |AllDue(test, capacity, pre, repos)|
              && Value(t).num >= |AllMatching(test, repos)|
              && (Value(t).num == |AllMatching(test, repos)| <==>
                    forall i :: 0 <= i < |repos| ==> NoContext(test, capacity, pre, repos[i]))
  {
    hide AllRight, Disjoint, Value, Inputs, RepoResult, AllDue, AllMatching, NoContext, IsUnion;
    if AllRight(test, capacity, pre, repos) {
      ReportedLinesExactly(test, capacity, pre, repos, t);
      ReposDisjoint(test, capacity, pre, repos);
      MergedUnion(RepoResults(repos), t);
      assert |Value(t).leaves| == |Value(t).leaves.Keys|;
      MatchingDue(test, capacity, pre, repos);
      SubsetSize(AllMatching(test, repos), AllDue(test, capacity, pre, repos));
      OnlyMatchingIff(test, capacity, pre, repos);
    }
  }

  /** Without leading context the count is right. */
  lemma ReportedCountWithoutContext(test: LineTest, capacity: nat, repos: seq<RepoSearch>, t: Tree)
    requires DifferentKeys(repos) && t.Node? && multiset(Inputs(t)) == multiset(RepoResults(repos))
    ensures AllRight(test, capacity, false, repos) ==> Value(t).num == |AllMatching(test, repos)|
  {
    hide AllRight, Value, Inputs, RepoResult, AllDue, AllMatching, HitLines, ReportedLines, Reports;
    ReportedCount(test, capacity, false, repos, t);
    forall i | 0 <= i < |repos| ensures NoContext(test, capacity, false, repos[i]) {
      var open := repos[i].open;
      forall f | f in FilesOf(repos[i]) && Reports(test, open, f)
        ensures ReportedLines(test, DataOf(open, f), capacity, false) == HitLines(test, DataOf(open, f))
      {
        HitsReported(test, DataOf(open, f), capacity, false);
      }
    }
  }
}
