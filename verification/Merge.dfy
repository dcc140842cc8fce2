/** Search results and their merging: matching lines by file, repository and line number. */
module Merge {
  import opened Text
  import opened Repos

  type FileMap = map<nat, Bytes>

  /** Per file, per repository key, the reported lines by number. */
  type Matches = map<string, map<string, FileMap>>

  datatype Leaf = Leaf(file: string, repo: string, line: nat)

  /** The reported lines of a result, each under its full address. */
  ghost function Leaves(m: Matches): map<Leaf, Bytes> {
    map f, r, l | f in m && r in m[f] && l in m[f][r] :: Leaf(f, r, l) := m[f][r][l]
  }

  /** No file without repository, no repository without line. */
  ghost predicate Tidy(m: Matches) {
    forall f :: f in m ==> m[f] != map[] && forall r :: r in m[f] ==> m[f][r] != map[]
  }

  function RepoMap(m: Matches, file: string): map<string, FileMap> {
    if file in m then m[file] else map[]
  }

  function LinesIn(m: Matches, file: string, repo: string): FileMap {
    if repo in RepoMap(m, file) then RepoMap(m, file)[repo] else map[]
  }

  lemma LeafIn(m: Matches, k: Leaf)
    ensures k in Leaves(m) <==> k.line in LinesIn(m, k.file, k.repo)
    ensures k in Leaves(m) ==> Leaves(m)[k] == LinesIn(m, k.file, k.repo)[k.line]
  {
  }

  lemma SameLines(a: Matches, b: Matches, f: string, r: string)
    requires Leaves(a) == Leaves(b)
    ensures LinesIn(a, f, r) == LinesIn(b, f, r)
  {
    hide Leaves;
    forall l: nat
      ensures l in LinesIn(a, f, r) <==> l in LinesIn(b, f, r)
      ensures l in LinesIn(a, f, r) ==> LinesIn(a, f, r)[l] == LinesIn(b, f, r)[l]
    {
      LeafIn(a, Leaf(f, r, l));
      LeafIn(b, Leaf(f, r, l));
    }
  }

  /** A tidy result is determined by its leaves. */
  lemma TidyUnique(a: Matches, b: Matches)
    requires Tidy(a) && Tidy(b) && Leaves(a) == Leaves(b)
    ensures a == b
  {
    hide Leaves;
    forall f, r ensures LinesIn(a, f, r) == LinesIn(b, f, r) {
      SameLines(a, b, f, r);
    }
    TidyWithin(a, b);
    TidyWithin(b, a);
    hide Tidy;
    forall f | f in a ensures a[f] == b[f] {
      SameRepos(a, b, f);
    }
  }

  lemma SameRepos(a: Matches, b: Matches, f: string)
    requires f in a && f in b && a[f].Keys == b[f].Keys
    requires forall r :: LinesIn(a, f, r) == LinesIn(b, f, r)
    ensures a[f] == b[f]
  {
    forall r | r in a[f] ensures a[f][r] == b[f][r] {
      assert LinesIn(a, f, r) == LinesIn(b, f, r);
    }
  }

  lemma TidyWithin(a: Matches, b: Matches)
    requires Tidy(a) && forall f, r :: LinesIn(a, f, r) == LinesIn(b, f, r)
    ensures forall f :: f in a ==> f in b && forall r :: r in a[f] ==> r in b[f]
  {
    forall f | f in a ensures f in b && forall r :: r in a[f] ==> r in b[f] {
      var r0 :| r0 in a[f];
      assert LinesIn(a, f, r0) != map[];
      forall r | r in a[f] ensures r in b[f] {
        assert LinesIn(a, f, r) == LinesIn(b, f, r) != map[];
      }
    }
  }

  // ----- adding the lines of one file of one repository

  function AddLines(m: Matches, file: string, repo: string, lines: FileMap): Matches {
    if lines == map[] then m
    else m[file := RepoMap(m, file)[repo := LinesIn(m, file, repo) + lines]]
  }

  ghost function LeavesOf(file: string, repo: string, lines: FileMap): map<Leaf, Bytes> {
    map l | l in lines :: Leaf(file, repo, l) := lines[l]
  }

  lemma AddLinesIn(m: Matches, file: string, repo: string, lines: FileMap, f: string, r: string)
    ensures LinesIn(AddLines(m, file, repo, lines), f, r)
         == if f == file && r == repo then LinesIn(m, f, r) + lines else LinesIn(m, f, r)
  {
  }

  lemma LeafOf(file: string, repo: string, lines: FileMap, k: Leaf)
    ensures k in LeavesOf(file, repo, lines) <==> k.file == file && k.repo == repo && k.line in lines
    ensures k in LeavesOf(file, repo, lines) ==> LeavesOf(file, repo, lines)[k] == lines[k.line]
  {
  }

  /** Adding lines adds their leaves (the text already there is replaced), and keeps a result tidy. */
  lemma AddLinesLeaves(m: Matches, file: string, repo: string, lines: FileMap)
    ensures Leaves(AddLines(m, file, repo, lines)) == Leaves(m) + LeavesOf(file, repo, lines)
    ensures Tidy(m) ==> Tidy(AddLines(m, file, repo, lines))
  {
    hide Leaves, LeavesOf, LinesIn;
    var m' := AddLines(m, file, repo, lines);
    forall k: Leaf
      ensures k in Leaves(m') <==> k in Leaves(m) || k in LeavesOf(file, repo, lines)
      ensures k in Leaves(m') ==> Leaves(m')[k] == (Leaves(m) + LeavesOf(file, repo, lines))[k]
    {
      LeafIn(m, k);
      LeafIn(m', k);
      AddLinesIn(m, file, repo, lines, k.file, k.repo);
      LeafOf(file, repo, lines, k);
    }
    AddLinesTidy(m, file, repo, lines);
  }

  lemma AddLinesTidy(m: Matches, file: string, repo: string, lines: FileMap)
    ensures Tidy(m) ==> Tidy(AddLines(m, file, repo, lines))
  {
  }

  lemma {:induction false} LeavesOfSize(file: string, repo: string, lines: FileMap)
    ensures |LeavesOf(file, repo, lines)| == |lines|
    decreases |lines|
  {
    var leaves := LeavesOf(file, repo, lines);
    if lines != map[] {
      var l :| l in lines;
      var rest := lines - {l};
      LeavesOfSize(file, repo, rest);
      assert |lines.Keys| == |rest.Keys| + 1 by { assert lines.Keys == rest.Keys + {l}; }
      assert leaves.Keys == LeavesOf(file, repo, rest).Keys + {Leaf(file, repo, l)};
    } else {
      assert leaves == map[];
    }
  }

  // ----- the result as it is updated in place

  /** `done` holds the leaves of `m` in the files of `files` and, of file `f`, in the repositories of `rs`. */
  ghost predicate Covers(done: map<Leaf, Bytes>, m: Matches, files: set<string>, f: string, rs: set<string>) {
    && (forall k :: k in done <==> k in Leaves(m) && (k.file in files || (k.file == f && k.repo in rs)))
    && (forall k :: k in done ==> done[k] == Leaves(m)[k])
  }

  lemma MapUnionSize(a: map<Leaf, Bytes>, b: map<Leaf, Bytes>)
    requires a.Keys !! b.Keys
    ensures |a + b| == |a| + |b|
  {
  }

  /** The maps the lines go into exist, empty if they are new. */
  lemma Prepared(m: Matches, f: string, r: string, m1: Matches)
    requires m1 == if f !in m then m[f := map[r := map[]]] else if r !in m[f] then m[f := m[f][r := map[]]] else m
    ensures m1 == m[f := RepoMap(m, f)[r := LinesIn(m, f, r) + map[]]]
  {
    assert LinesIn(m, f, r) + map[] == LinesIn(m, f, r);
    if f in m && r in m[f] {
      assert m[f][r := m[f][r]] == m[f];
    }
  }

  lemma PutLine(m0: Matches, f: string, r: string, rs: map<string, FileMap>, ls: FileMap, l: nat, text: Bytes,
                m: Matches)
    requires m == m0[f := rs[r := ls]]
    ensures f in m && r in m[f]
    ensures m[f := m[f][r := m[f][r][l := text]]] == m0[f := rs[r := ls[l := text]]]
  {
    Overwrite(rs, r, ls, ls[l := text]);
    Overwrite(m0, f, rs[r := ls], rs[r := ls[l := text]]);
  }

  lemma Overwrite<K, V>(m: map<K, V>, k: K, v: V, w: V)
    ensures m[k := v][k] == v && m[k := v][k := w] == m[k := w]
  {
  }

  lemma TakeOne(lines: FileMap, todo: set<nat>, l: nat)
    requires l in todo && todo <= lines.Keys
    ensures (lines - todo)[l := lines[l]] == lines - (todo - {l})
  {
  }

  lemma OneMore(a: FileMap, b: FileMap, l: nat, text: Bytes)
    ensures (a + b)[l := text] == a + b[l := text]
  {
  }

  lemma PlusAssoc(a: map<Leaf, Bytes>, b: map<Leaf, Bytes>, c: map<Leaf, Bytes>)
    ensures (a + b) + c == a + (b + c)
  {
  }

  lemma RepoLeaves(m: Matches, f: string, r: string, k: Leaf)
    requires f in m && r in m[f]
    ensures k in LeavesOf(f, r, m[f][r]) <==> k in Leaves(m) && k.file == f && k.repo == r
    ensures k in LeavesOf(f, r, m[f][r]) ==> LeavesOf(f, r, m[f][r])[k] == Leaves(m)[k]
  {
  }

  lemma CoverRepo(done: map<Leaf, Bytes>, m: Matches, files: set<string>, f: string, rs: set<string>, r: string)
    requires Covers(done, m, files, f, rs) && f in m && r in m[f] && f !in files && r !in rs
    ensures Covers(done + LeavesOf(f, r, m[f][r]), m, files, f, rs + {r})
    ensures |done + LeavesOf(f, r, m[f][r])| == |done| + |m[f][r]|
  {
    hide Leaves, LeavesOf;
    var more := LeavesOf(f, r, m[f][r]);
    forall k: Leaf
      ensures k in more <==> k in Leaves(m) && k.file == f && k.repo == r
      ensures k in more ==> more[k] == Leaves(m)[k]
    {
      RepoLeaves(m, f, r, k);
    }
    assert done.Keys !! more.Keys;
    LeavesOfSize(f, r, m[f][r]);
    MapUnionSize(done, more);
    CoverMore(done, more, m, files, f, rs, r);
  }

  lemma CoverMore(done: map<Leaf, Bytes>, more: map<Leaf, Bytes>, m: Matches,
                  files: set<string>, f: string, rs: set<string>, r: string)
    requires Covers(done, m, files, f, rs)
    requires forall k :: k in more <==> k in Leaves(m) && k.file == f && k.repo == r
    requires forall k :: k in more ==> more[k] == Leaves(m)[k]
    ensures Covers(done + more, m, files, f, rs + {r})
  {
  }

  lemma CoverFile(done: map<Leaf, Bytes>, m: Matches, files: set<string>, f: string)
    requires f in m && Covers(done, m, files, f, m[f].Keys)
    ensures Covers(done, m, files + {f}, "", {})
  {
  }

  lemma CoverAll(done: map<Leaf, Bytes>, m: Matches, files: set<string>)
    requires Covers(done, m, files, "", {}) && files == m.Keys
    ensures done == Leaves(m)
  {
  }

  /** `now` and `num` are a result of matches `m0` and count `num0` merged with `done`. */
  ghost predicate Halfway(now: Matches, num: nat, m0: Matches, num0: nat, done: map<Leaf, Bytes>) {
    Leaves(now) == Leaves(m0) + done && (Tidy(m0) ==> Tidy(now)) && num == num0 + |done|
  }

  lemma HalfwayStep(now: Matches, num: nat, m0: Matches, num0: nat, done: map<Leaf, Bytes>,
                    m: Matches, files: set<string>, f: string, rs: set<string>, r: string)
    requires Halfway(now, num, m0, num0, done) && Covers(done, m, files, f, rs)
    requires f in m && r in m[f] && f !in files && r !in rs
    ensures Halfway(AddLines(now, f, r, m[f][r]), num + |m[f][r]|, m0, num0, done + LeavesOf(f, r, m[f][r]))
    ensures Covers(done + LeavesOf(f, r, m[f][r]), m, files, f, rs + {r})
  {
    hide Leaves, AddLines, Tidy, LeavesOf, Covers;
    AddLinesLeaves(now, f, r, m[f][r]);
    PlusAssoc(Leaves(m0), done, LeavesOf(f, r, m[f][r]));
    CoverRepo(done, m, files, f, rs, r);
  }

  /** Global errors are put under one another. */
  function JoinError(a: string, b: string): string {
    if a == "" then b else a + "\n" + b
  }

  class SearchResult {
    var matches: Matches
    var numMatches: nat
    var maxMatches: nat
    var errors: map<string, string>
    var repos: map<string, Repo>
    var error: string

    constructor ()
      ensures matches == map[] && numMatches == 0 && maxMatches == 0
      ensures errors == map[] && repos == map[] && error == ""
    {
      matches, numMatches, maxMatches, errors, repos, error := map[], 0, 0, map[], map[], "";
    }

    /** Adds lines, creating the maps they go into. */
    method AddFileRepoMatches(fname: string, repokey: string, lines: FileMap)
      modifies this`matches, this`numMatches
      ensures matches == AddLines(old(matches), fname, repokey, lines)
      ensures numMatches == old(numMatches) + |lines|
    {
      if |lines| == 0 {
        return;
      }
      if fname !in matches {
        matches := matches[fname := map[]];
      }
      if repokey !in matches[fname] {
        matches := matches[fname := matches[fname][repokey := map[]]];
      }
      Prepared(old(matches), fname, repokey, matches);
      CopyLines(fname, repokey, lines, old(matches), RepoMap(old(matches), fname),
                LinesIn(old(matches), fname, repokey));
    }

    /** The loop over the lines, in any order, one by one. */
    method CopyLines(f: string, r: string, lines: FileMap,
                     ghost m0: Matches, ghost repos0: map<string, FileMap>, ghost lines0: FileMap)
      requires matches == m0[f := repos0[r := lines0 + map[]]]
      modifies this`matches, this`numMatches
      ensures matches == m0[f := repos0[r := lines0 + lines]]
      ensures numMatches == old(numMatches) + |lines|
    {
      var todo := lines.Keys;
      ghost var done: FileMap := map[];
      while todo != {}
        invariant todo <= lines.Keys && done == lines - todo
        invariant matches == m0[f := repos0[r := lines0 + done]]
        invariant numMatches == old(numMatches) + |lines| - |todo|
        decreases todo
      {
        var l :| l in todo;
        PutLine(m0, f, r, repos0, lines0 + done, l, lines[l], matches);
        OneMore(lines0, done, l, lines[l]);
        TakeOne(lines, todo, l);
        matches := matches[f := matches[f][r := matches[f][r][l := lines[l]]]];
        numMatches := numMatches + 1;
        done := done[l := lines[l]];
        todo := todo - {l};
      }
      assert lines - {} == lines;
    }

    /** Merges another result into this one, in any order of its files and repositories. */
    method Update(other: SearchResult)
      requires other != this
      modifies this`matches, this`numMatches, this`errors, this`repos, this`error
      ensures Leaves(matches) == Leaves(old(matches)) + Leaves(other.matches)
      ensures Tidy(old(matches)) ==> Tidy(matches)
      ensures numMatches == old(numMatches) + |Leaves(other.matches)|
      ensures errors == old(errors) + other.errors && repos == old(repos) + other.repos
      ensures error == JoinError(old(error), other.error)
    {
      hide Leaves, Tidy;
      UpdateInfo(other);
      UpdateMatches(other);
    }

    /** The errors and the repositories. */
    method UpdateInfo(other: SearchResult)
      requires other != this
      modifies this`errors, this`repos, this`error
      ensures errors == old(errors) + other.errors && repos == old(repos) + other.repos
      ensures error == JoinError(old(error), other.error)
    {
      errors := errors + other.errors;
      repos := repos + other.repos;
      if error == "" {
        error := other.error;
      } else {
        error := error + "\n" + other.error;
      }
    }

    /** The outer loop over the files. */
    method UpdateMatches(other: SearchResult)
      requires other != this
      modifies this`matches, this`numMatches
      ensures Leaves(matches) == Leaves(old(matches)) + Leaves(other.matches)
      ensures Tidy(old(matches)) ==> Tidy(matches)
      ensures numMatches == old(numMatches) + |Leaves(other.matches)|
    {
      hide Leaves, Covers, AddLines, Tidy;
      var files := other.matches.Keys;
      ghost var done: map<Leaf, Bytes> := map[];
      CoverNone(other.matches);
      assert other.matches.Keys - files == {};
      while files != {}
        invariant files <= other.matches.Keys
        invariant Covers(done, other.matches, other.matches.Keys - files, "", {})
        invariant Halfway(matches, numMatches, old(matches), old(numMatches), done)
        decreases files
      {
        var f :| f in files;
        ghost var seen := other.matches.Keys - files;
        done := UpdateFile(other, f, done, seen, old(matches), old(numMatches));
        CoverFile(done, other.matches, seen, f);
        KeysLeft(other.matches.Keys, files, f);
        files := files - {f};
      }
      assert other.matches.Keys - files == other.matches.Keys;
      CoverAll(done, other.matches, other.matches.Keys - files);
    }

    /** The inner loop: one file's repositories. */
    method UpdateFile(other: SearchResult, f: string, ghost done0: map<Leaf, Bytes>, ghost seen: set<string>,
                      ghost matches0: Matches, ghost num0: nat) returns (ghost done: map<Leaf, Bytes>)
      requires other != this && f in other.matches && f !in seen
      requires Covers(done0, other.matches, seen, "", {})
      requires Halfway(matches, numMatches, matches0, num0, done0)
      modifies this`matches, this`numMatches
      ensures Covers(done, other.matches, seen, f, other.matches[f].Keys)
      ensures Halfway(matches, numMatches, matches0, num0, done)
    {
      hide AddLines, LeavesOf, Covers, Halfway;
      var rs := other.matches[f].Keys;
      done := done0;
      ghost var doneRepos: set<string> := {};
      CoverSame(done0, other.matches, seen, f);
      while rs != {}
        invariant doneRepos !! rs && doneRepos + rs == other.matches[f].Keys
        invariant Covers(done, other.matches, seen, f, doneRepos)
        invariant Halfway(matches, numMatches, matches0, num0, done)
        decreases rs
      {
        var r :| r in rs;
        HalfwayStep(matches, numMatches, matches0, num0, done, other.matches, seen, f, doneRepos, r);
        AddFileRepoMatches(f, r, other.matches[f][r]);
        done := done + LeavesOf(f, r, other.matches[f][r]);
        rs, doneRepos := rs - {r}, doneRepos + {r};
      }
    }

    predicate EnoughResults()
      reads this
    {
      maxMatches > 0 && numMatches >= maxMatches
    }
  }

  lemma KeysLeft(all: set<string>, todo: set<string>, f: string)
    requires f in todo && todo <= all
    ensures all - (todo - {f}) == (all - todo) + {f}
  {
  }

  lemma CoverSame(done: map<Leaf, Bytes>, m: Matches, files: set<string>, f: string)
    requires Covers(done, m, files, "", {})
    ensures Covers(done, m, files, f, {})
  {
  }

  lemma CoverNone(m: Matches)
    ensures Covers(map[], m, {}, "", {})
  {
  }
}
