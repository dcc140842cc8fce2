/** Searches of the shards that an index request has written: when they have no file in common. */
module WrittenShards {
  import opened Walk
  import opened Scanner
  import opened Indexing
  import Shards
  import opened EndToEnd

  /** A finished run of the shard workers for a query. */
  datatype IndexRun = IndexRun(excluded: Excludes, files: seq<string>, dirs: seq<string>, fs: string -> Node,
                               opens: string -> bool, shards: nat, run: seq<Shards.Action>)

  ghost predicate Completed(x: IndexRun) {
    var names := ScannedNames(x.excluded, x.files, x.dirs, x.fs);
    && CleanTrees(x.dirs, x.fs) && 0 < x.shards
    && Shards.Schedule(x.opens, Shards.Init(names, x.shards), x.run)
    && Shards.Finished(Shards.Exec(x.opens, Shards.Init(names, x.shards), x.run))
  }

  ghost function Written(x: IndexRun): seq<seq<string>>
    requires Completed(x)
  {
    Shards.Exec(x.opens, Shards.Init(ScannedNames(x.excluded, x.files, x.dirs, x.fs), x.shards), x.run).shards
  }

  /** The query asks for no file that opens twice: not by name and through a directory, nor through two directories. */
  ghost predicate AsksOnce(x: IndexRun) {
    forall name :: x.opens(name) ==> TimesWanted(x.excluded, x.files, x.dirs, x.fs, name) <= 1
  }

  lemma {:induction false} InShard(shards: seq<seq<string>>, w: nat, name: string)
    requires w < |shards|
    ensures multiset(shards[w])[name] <= Shards.Union(Shards.Shard(), shards)[name]
  {
    if w > 0 {
      InShard(shards[1..], w - 1, name);
    }
  }

  lemma {:induction false} InTwoShards(shards: seq<seq<string>>, v: nat, w: nat, name: string)
    requires v < w < |shards| && name in shards[v] && name in shards[w]
    ensures Shards.Union(Shards.Shard(), shards)[name] > 1
  {
    if v > 0 {
      InTwoShards(shards[1..], v - 1, w - 1, name);
    } else {
      InShard(shards[1..], w - 1, name);
      assert shards[1..][w - 1] == shards[w];
      assert name in multiset(shards[0]) && name in multiset(shards[w]);
    }
  }

  /** If a query asks for no file twice, no two of its shards hold the same file. */
  lemma WrittenApart(x: IndexRun, v: nat, w: nat)
    requires Completed(x) && AsksOnce(x) && v < |Written(x)| && w < |Written(x)| && v != w
    ensures ShareNothing(Written(x)[v], Written(x)[w])
  {
    hide Shards.Exec, Shards.Schedule, ScannedNames, CleanTrees, TimesWanted, Shards.Finished, Shards.Union;
    IndexedExactly(x.excluded, x.files, x.dirs, x.fs, x.opens, x.shards, x.run);
    forall name | name in Written(x)[v] ensures name !in Written(x)[w] {
      assert x.opens(name) ==> TimesWanted(x.excluded, x.files, x.dirs, x.fs, name) <= 1;
      if name in Written(x)[w] {
        if v < w {
          InTwoShards(Written(x), v, w, name);
        } else {
          InTwoShards(Written(x), w, v, name);
        }
      }
    }
  }

  /** Each search is of a different shard of the index, and its candidates are files of that shard. */
  ghost predicate OfIndex(ss: seq<ShardSearch>, x: IndexRun, place: seq<nat>) {
    && Completed(x) && |place| == |ss|
    && (forall i :: 0 <= i < |ss| ==> place[i] < |Written(x)| && SetOf(ss[i].names) <= SetOf(Written(x)[place[i]]))
    && (forall i, j :: 0 <= i < j < |ss| ==> place[i] != place[j])
  }

  ghost predicate ShareNothing(a: seq<string>, b: seq<string>) {
    forall name :: name in a ==> name !in b
  }

  lemma PartsShareNothing(a: seq<string>, b: seq<string>, whole: seq<string>, other: seq<string>)
    requires SetOf(a) <= SetOf(whole) && SetOf(b) <= SetOf(other) && ShareNothing(whole, other)
    ensures ShareNothing(a, b)
  {
    forall name | name in a ensures name !in b {
      assert name in SetOf(a) && name in whole && name !in SetOf(other);
    }
  }

  /** If a query asks for no file twice, searches of the shards written for it have no file in common. */
  lemma IndexedApart(ss: seq<ShardSearch>, x: IndexRun, place: seq<nat>)
    requires OfIndex(ss, x, place) && AsksOnce(x)
    ensures forall i, j :: 0 <= i < j < |ss| ==> ShareNothing(ss[i].names, ss[j].names)
  {
    hide Completed, AsksOnce, Written, ShareNothing;
    forall i, j | 0 <= i < j < |ss|
      ensures ShareNothing(ss[i].names, ss[j].names)
    {
      WrittenApart(x, place[i], place[j]);
      PartsShareNothing(ss[i].names, ss[j].names, Written(x)[place[i]], Written(x)[place[j]]);
    }
  }
}
