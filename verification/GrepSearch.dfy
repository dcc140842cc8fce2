/** Searching the candidate files of one index shard. */
module GrepSearch {
  import opened Text
  import opened GrepSpec
  import opened Grep
  import opened Merge

  /** How reading ends: normally, with an error that says the file is gone or not permitted, or with another. */
  datatype ReadEnd = AtEnd | GoneOrForbidden | OtherError

  /** What opening a file gives: nothing, or bytes and how they end. */
  datatype Opened = NotFound | Opened(data: Bytes, ending: ReadEnd)

  type FileSystem = string -> Opened

  /** The file has a match and reading it meets no error, or one that is ignored. */
  ghost predicate Reports(test: LineTest, open: FileSystem, name: string) {
    open(name).Opened? && !open(name).ending.OtherError? && HitLines(test, open(name).data) != {}
  }

  /** The file has a match before a read error that is not ignored. */
  ghost predicate Breaks(test: LineTest, open: FileSystem, name: string) {
    open(name).Opened? && open(name).ending.OtherError? && HitLines(test, open(name).data) != {}
  }

  ghost function Hits(test: LineTest, open: FileSystem, name: string): nat {
    if Reports(test, open, name) then |HitLines(test, open(name).data)| else 0
  }

  ghost function TotalHits(test: LineTest, open: FileSystem, names: seq<string>): nat {
    if names == [] then 0
    else TotalHits(test, open, names[..|names| - 1]) + Hits(test, open, names[|names| - 1])
  }

  /** `m` holds, under `key`, the reported lines of exactly the files in `names` that report. */
  ghost predicate Holds(test: LineTest, open: FileSystem, capacity: nat, pre: bool, key: string,
                        names: seq<string>, m: Matches) {
    && (forall name :: name in m <==> name in names && Reports(test, open, name))
    && (forall name :: name in m ==> m[name].Keys == {key})
    && (forall name :: name in m ==>
          MapsLines(m[name][key], Lines(open(name).data), ReportedLines(test, open(name).data, capacity, pre)))
  }

  lemma HoldsPush(test: LineTest, open: FileSystem, capacity: nat, pre: bool, key: string,
                  names: seq<string>, m: Matches, name: string, lines: FileMap)
    requires Holds(test, open, capacity, pre, key, names, m) && Reports(test, open, name)
    requires MapsLines(lines, Lines(open(name).data), ReportedLines(test, open(name).data, capacity, pre))
    ensures Holds(test, open, capacity, pre, key, names + [name], m[name := map[key := lines]])
  {
    hide Lines, ReportedLines, Reports;
  }

  lemma HoldsSkip(test: LineTest, open: FileSystem, capacity: nat, pre: bool, key: string,
                  names: seq<string>, m: Matches, name: string)
    requires Holds(test, open, capacity, pre, key, names, m) && !Reports(test, open, name)
    ensures Holds(test, open, capacity, pre, key, names + [name], m)
  {
  }

  /** Opens a file and scans it; a file that cannot be opened has no matches. */
  method ReadFile(g: Grepper, name: string, open: FileSystem) returns (n: nat, lines: FileMap, e: ReadEnd)
    requires g.ctxBoth <= 0 && g.ctxPost <= 0
    requires g.buf != null ==> g.buf.Length == g.capacity
    requires open(name).Opened? ==> NewlineInEveryFill(open(name).data, g.capacity)
    modifies g`buf, g.buf
    ensures (g.buf == old(g.buf) || fresh(g.buf)) && (g.buf != null ==> g.buf.Length == g.capacity)
    ensures n > 0 && !e.OtherError? <==> Reports(g.regexp, open, name)
    ensures n > 0 && e.OtherError? <==> Breaks(g.regexp, open, name)
    ensures n > 0 && !e.OtherError? ==> n == Hits(g.regexp, open, name) && MapsLines(lines, Lines(open(name).data),
                              ReportedLines(g.regexp, open(name).data, g.capacity, g.ctxPre > 0))
  {
    hide Hit, HitsUpTo, KeysUpTo, Lines, IsContext, NewlineInEveryFill, MapsLines;
    n, lines, e := 0, map[], AtEnd;
    var file := open(name);
    if file.Opened? {
      var r := new Source(file.data, !file.ending.AtEnd?);
      var failed;
      n, lines, failed := g.Reader(r);
      e := if failed then file.ending else AtEnd;
    }
  }

  /** What has been collected from the files of `names`. */
  ghost predicate Searched(test: LineTest, open: FileSystem, capacity: nat, pre: bool, key: string, names: seq<string>,
                           matches: Matches, numMatches: nat, err: bool) {
    && Holds(test, open, capacity, pre, key, names, matches)
    && numMatches == TotalHits(test, open, names)
    && (err <==> exists name :: name in names && Breaks(test, open, name))
  }

  lemma SearchedPush(test: LineTest, open: FileSystem, capacity: nat, pre: bool, key: string, names: seq<string>,
                     matches: Matches, numMatches: nat, err: bool, name: string, n: nat, lines: FileMap, e: bool)
    requires Searched(test, open, capacity, pre, key, names, matches, numMatches, err)
    requires n > 0 && !e <==> Reports(test, open, name)
    requires n > 0 && e <==> Breaks(test, open, name)
    requires n > 0 && !e ==> n == Hits(test, open, name) && MapsLines(lines, Lines(open(name).data),
                               ReportedLines(test, open(name).data, capacity, pre))
    ensures n > 0 && !e ==> Searched(test, open, capacity, pre, key, names + [name],
                                     matches[name := map[key := lines]], numMatches + n, err)
    ensures n == 0 || e ==> Searched(test, open, capacity, pre, key, names + [name], matches, numMatches, err || n > 0)
  {
    hide Holds, Reports, Breaks, HitLines, ReportedLines, Lines, MapsLines;
    var names' := names + [name];
    assert names'[..|names|] == names;
    assert forall x :: x in names' <==> x in names || x == name;
    if n > 0 && !e {
      HoldsPush(test, open, capacity, pre, key, names, matches, name, lines);
    } else {
      HoldsSkip(test, open, capacity, pre, key, names, matches, name);
    }
  }

  /** Scans the candidate files one after the other, with one buffer. A file that is a candidate twice is scanned and
      counted twice, but its lines are reported once. */
  method Search(g: Grepper, names: seq<string>, open: FileSystem, key: string)
    returns (matches: Matches, numMatches: nat, err: bool)
    requires g.ctxBoth <= 0 && g.ctxPost <= 0
    requires g.buf != null ==> g.buf.Length == g.capacity
    requires forall name :: name in names && open(name).Opened? ==> NewlineInEveryFill(open(name).data, g.capacity)
    modifies g`buf, g.buf
    ensures Searched(g.regexp, open, g.capacity, g.ctxPre > 0, key, names, matches, numMatches, err)
    ensures numMatches == TotalHits(g.regexp, open, names)
    ensures forall name :: name in matches <==>
              && name in names && open(name).Opened? && !open(name).ending.OtherError?
              && exists n :: Hit(g.regexp, open(name).data, n)
    ensures err <==> exists name ::
              && name in names && open(name).Opened? && open(name).ending.OtherError?
              && exists n :: Hit(g.regexp, open(name).data, n)
  {
    hide Hit, Searched, Hits, NewlineInEveryFill, MapsLines, Reports, Breaks;
    matches, numMatches, err := map[], 0, false;
    StartEmpty(g.regexp, open, g.capacity, g.ctxPre > 0, key);
    for i := 0 to |names|
      invariant g.buf != null ==> g.buf.Length == g.capacity
      invariant g.buf == old(g.buf) || fresh(g.buf)
      invariant Searched(g.regexp, open, g.capacity, g.ctxPre > 0, key, names[..i], matches, numMatches, err)
    {
      var n, lines, e := ReadFile(g, names[i], open);
      SearchedPush(g.regexp, open, g.capacity, g.ctxPre > 0, key, names[..i], matches, numMatches, err,
                   names[i], n, lines, e.OtherError?);
      assert names[..i + 1] == names[..i] + [names[i]];
      if n == 0 {
        continue;
      } else if e.OtherError? {
        err := true;
      } else {
        matches := matches[names[i] := map[key := lines]];
        numMatches := numMatches + n;
      }
    }
    assert names[..|names|] == names;
    SearchedMeans(g.regexp, open, g.capacity, g.ctxPre > 0, key, names, matches, numMatches, err);
  }

  lemma SearchedMeans(test: LineTest, open: FileSystem, capacity: nat, pre: bool, key: string, names: seq<string>,
                      matches: Matches, numMatches: nat, err: bool)
    requires Searched(test, open, capacity, pre, key, names, matches, numMatches, err)
    ensures numMatches == TotalHits(test, open, names)
    ensures forall name :: name in matches <==>
              && name in names && open(name).Opened? && !open(name).ending.OtherError?
              && exists n :: Hit(test, open(name).data, n)
    ensures err <==> exists name ::
              && name in names && open(name).Opened? && open(name).ending.OtherError?
              && exists n :: Hit(test, open(name).data, n)
  {
    hide Lines, ReportedLines, MapsLines, TotalHits;
    forall name | name in names && open(name).Opened?
      ensures HitLines(test, open(name).data) != {} <==> exists n :: Hit(test, open(name).data, n)
    {
      SomeHit(test, open(name).data);
    }
  }

  lemma SomeHit(test: LineTest, file: Bytes)
    ensures HitLines(test, file) != {} <==> exists n :: Hit(test, file, n)
  {
    hide Lines;
    if n :| Hit(test, file, n) {
      assert n in HitLines(test, file);
    }
    if HitLines(test, file) != {} {
      var n :| n in HitLines(test, file);
    }
  }

  lemma StartEmpty(test: LineTest, open: FileSystem, capacity: nat, pre: bool, key: string)
    ensures Searched(test, open, capacity, pre, key, [], map[], 0, false)
  {
  }
}
