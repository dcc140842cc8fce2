/** Merging results: over shards, repositories and hosts, in any grouping and any order of arrival. */
module MergeTheorems {
  import opened Text
  import opened Merge

  type LeafMap = map<Leaf, Bytes>

  /** A result as far as merging is concerned: its leaves, and the number of matches it reports. */
  datatype Result = Result(leaves: LeafMap, num: nat)

  ghost function View(r: SearchResult): Result
    reads r
  {
    Result(Leaves(r.matches), r.numMatches)
  }

  /** What one `Update` does: leaves are added, the other's own count is not looked at. */
  ghost function Merged(a: Result, b: Result): Result {
    Result(a.leaves + b.leaves, a.num + |b.leaves|)
  }

  method UpdateView(r: SearchResult, other: SearchResult)
    requires r != other && Tidy(r.matches)
    modifies r`matches, r`numMatches, r`errors, r`repos, r`error
    ensures View(r) == Merged(old(View(r)), old(View(other))) && Tidy(r.matches)
    ensures r.errors == old(r.errors) + other.errors && r.repos == old(r.repos) + other.repos
    ensures r.error == JoinError(old(r.error), other.error)
  {
    r.Update(other);
  }

  /** A new result, updated with each of these in turn. */
  ghost function MergeAll(rs: seq<Result>): Result {
    if rs == [] then Result(map[], 0) else Merged(MergeAll(rs[..|rs| - 1]), rs[|rs| - 1])
  }

  /** How results are grouped: a result as it is, or a merge of merges. */
  datatype Tree = One(r: Result) | Node(parts: seq<Tree>)

  ghost function Value(t: Tree): Result
    decreases t, 1
  {
    match t
    case One(r) => r
    case Node(parts) => MergeParts(parts)
  }

  ghost function MergeParts(parts: seq<Tree>): Result
    decreases parts, 0
  {
    if parts == [] then Result(map[], 0)
    else Merged(MergeParts(parts[..|parts| - 1]), Value(parts[|parts| - 1]))
  }

  ghost function Inputs(t: Tree): seq<Result>
    decreases t, 1
  {
    match t
    case One(r) => [r]
    case Node(parts) => InputsOfParts(parts)
  }

  ghost function InputsOfParts(parts: seq<Tree>): seq<Result>
    decreases parts, 0
  {
    if parts == [] then []
    else InputsOfParts(parts[..|parts| - 1]) + Inputs(parts[|parts| - 1])
  }

  ghost predicate Disjoint(rs: seq<Result>) {
    forall i, j :: 0 <= i < j < |rs| ==> rs[i].leaves.Keys !! rs[j].leaves.Keys
  }

  /** `m` has exactly the leaves of the results, with their texts. */
  ghost predicate IsUnion(m: LeafMap, rs: seq<Result>) {
    && (forall k :: k in m ==> exists i :: 0 <= i < |rs| && k in rs[i].leaves)
    && (forall i, k :: 0 <= i < |rs| && k in rs[i].leaves ==> k in m && m[k] == rs[i].leaves[k])
  }

  lemma KeysApart(ra: seq<Result>, rb: seq<Result>, i: nat, j: nat)
    requires Disjoint(ra + rb) && i < |ra| && j < |rb|
    ensures ra[i].leaves.Keys !! rb[j].leaves.Keys
  {
    assert (ra + rb)[i] == ra[i] && (ra + rb)[|ra| + j] == rb[j];
  }

  lemma UnionConcat(a: LeafMap, ra: seq<Result>, b: LeafMap, rb: seq<Result>)
    requires IsUnion(a, ra) && IsUnion(b, rb) && Disjoint(ra + rb)
    ensures a.Keys !! b.Keys && IsUnion(a + b, ra + rb)
  {
    var rs := ra + rb;
    forall k | k in a ensures k !in b {
      var i :| 0 <= i < |ra| && k in ra[i].leaves;
      forall j | 0 <= j < |rb| ensures k !in rb[j].leaves {
        KeysApart(ra, rb, i, j);
      }
    }
    forall k | k in a + b ensures exists i :: 0 <= i < |rs| && k in rs[i].leaves {
      if k in b {
        var j :| 0 <= j < |rb| && k in rb[j].leaves;
        assert rs[|ra| + j] == rb[j];
      } else {
        var i :| 0 <= i < |ra| && k in ra[i].leaves;
        assert rs[i] == ra[i];
      }
    }
    forall i, k | 0 <= i < |rs| && k in rs[i].leaves
      ensures k in a + b && (a + b)[k] == rs[i].leaves[k]
    {
      if i < |ra| {
        assert rs[i] == ra[i];
      } else {
        assert rs[i] == rb[i - |ra|];
      }
    }
  }

  lemma DisjointParts(ra: seq<Result>, rb: seq<Result>)
    requires Disjoint(ra + rb)
    ensures Disjoint(ra) && Disjoint(rb)
  {
    var rs := ra + rb;
    forall i, j | 0 <= i < j < |ra| ensures ra[i].leaves.Keys !! ra[j].leaves.Keys {
      assert rs[i] == ra[i] && rs[j] == ra[j];
    }
    forall i, j | 0 <= i < j < |rb| ensures rb[i].leaves.Keys !! rb[j].leaves.Keys {
      assert rs[|ra| + i] == rb[i] && rs[|ra| + j] == rb[j];
    }
  }

  /** However results are grouped, the outcome is their union, and counts its leaves. */
  lemma {:induction false} TreeUnion(t: Tree)
    requires Disjoint(Inputs(t))
    ensures IsUnion(Value(t).leaves, Inputs(t))
    ensures t.Node? ==> Value(t).num == |Value(t).leaves|
    decreases t, 1
  {
    match t
    case One(r) => assert [r][0] == r;
    case Node(parts) => PartsUnion(parts);
  }

  lemma {:induction false} PartsUnion(parts: seq<Tree>)
    requires Disjoint(InputsOfParts(parts))
    ensures IsUnion(MergeParts(parts).leaves, InputsOfParts(parts))
    ensures MergeParts(parts).num == |MergeParts(parts).leaves|
    decreases parts, 0
  {
    hide IsUnion, Disjoint;
    if parts == [] {
      UnionNone();
    } else {
      var init, last := parts[..|parts| - 1], parts[|parts| - 1];
      var ra, rb := InputsOfParts(init), Inputs(last);
      DisjointParts(ra, rb);
      PartsUnion(init);
      TreeUnion(last);
      var a, b := MergeParts(init).leaves, Value(last).leaves;
      UnionConcat(a, ra, b, rb);
      MapUnionSize(a, b);
    }
  }

  lemma UnionNone()
    ensures IsUnion(map[], [])
  {
  }

  // ----- the order of arrival

  /** No two results of the collection share a leaf. */
  ghost predicate DisjointBag(rs: multiset<Result>) {
    && (forall a, b :: a in rs && b in rs && a != b ==> a.leaves.Keys !! b.leaves.Keys)
    && (forall a :: a in rs && rs[a] > 1 ==> a.leaves == map[])
  }

  lemma TwiceIn<T>(rs: seq<T>, i: nat, j: nat)
    requires i < j < |rs| && rs[i] == rs[j]
    ensures multiset(rs)[rs[i]] > 1
  {
    assert rs == rs[..j] + rs[j..];
    assert multiset(rs) == multiset(rs[..j]) + multiset(rs[j..]);
    assert rs[..j][i] in rs[..j] && rs[j..][0] in rs[j..];
  }

  lemma BagDisjoint(rs: seq<Result>)
    requires DisjointBag(multiset(rs))
    ensures Disjoint(rs)
  {
    forall i, j | 0 <= i < j < |rs| ensures rs[i].leaves.Keys !! rs[j].leaves.Keys {
      assert rs[i] in multiset(rs) && rs[j] in multiset(rs);
      if rs[i] == rs[j] {
        TwiceIn(rs, i, j);
      }
    }
  }

  lemma UnionUnique(a: LeafMap, ra: seq<Result>, b: LeafMap, rb: seq<Result>)
    requires IsUnion(a, ra) && IsUnion(b, rb) && multiset(ra) == multiset(rb)
    ensures a == b
  {
    UnionWithin(a, ra, b, rb);
    UnionWithin(b, rb, a, ra);
  }

  lemma UnionWithin(a: LeafMap, ra: seq<Result>, b: LeafMap, rb: seq<Result>)
    requires IsUnion(a, ra) && IsUnion(b, rb) && multiset(ra) == multiset(rb)
    ensures forall k :: k in a ==> k in b && a[k] == b[k]
  {
    forall k | k in a ensures k in b && a[k] == b[k] {
      var i :| 0 <= i < |ra| && k in ra[i].leaves;
      assert ra[i] in multiset(rb);
      var j :| 0 <= j < |rb| && rb[j] == ra[i];
    }
  }

  /** Merging over shards, repositories and hosts gives what merging the same results in any other grouping
      and order gives, in particular all at once: the same lines and the same number of matches. */
  lemma MergeShapeIrrelevant(t: Tree, u: Tree)
    requires t.Node? && u.Node? && multiset(Inputs(t)) == multiset(Inputs(u))
    requires DisjointBag(multiset(Inputs(t)))
    ensures Value(t) == Value(u) && Value(t).num == |Value(t).leaves|
  {
    BagDisjoint(Inputs(t));
    BagDisjoint(Inputs(u));
    TreeUnion(t);
    TreeUnion(u);
    UnionUnique(Value(t).leaves, Inputs(t), Value(u).leaves, Inputs(u));
  }

  // ----- results that overlap

  ghost function Total(rs: seq<Result>): nat {
    if rs == [] then 0 else Total(rs[..|rs| - 1]) + |rs[|rs| - 1].leaves|
  }

  ghost predicate HasLeaf(rs: seq<Result>, k: Leaf) {
    exists i :: 0 <= i < |rs| && k in rs[i].leaves
  }

  lemma {:induction false} MergeAllLeaves(rs: seq<Result>, k: Leaf)
    ensures k in MergeAll(rs).leaves <==> HasLeaf(rs, k)
  {
    if rs != [] {
      MergeAllLeaves(rs[..|rs| - 1], k);
      var init := rs[..|rs| - 1];
      if HasLeaf(init, k) {
        var i :| 0 <= i < |init| && k in init[i].leaves;
        assert k in rs[i].leaves;
      }
    }
  }

  lemma OverlapSize(a: LeafMap, b: LeafMap)
    ensures |a + b| <= |a| + |b|
    ensures |a + b| == |a| + |b| <==> a.Keys !! b.Keys
  {
    assert (a + b).Keys == a.Keys + b.Keys;
    assert |a.Keys + b.Keys| + |a.Keys * b.Keys| == |a.Keys| + |b.Keys|;
  }

  /** In general a merge counts every leaf of every part, so it counts the distinct leaves exactly when
      no two parts share one, and more otherwise. */
  lemma {:induction false} CountsEveryLeaf(rs: seq<Result>)
    ensures MergeAll(rs).num == Total(rs) >= |MergeAll(rs).leaves|
    ensures MergeAll(rs).num == |MergeAll(rs).leaves| <==> Disjoint(rs)
  {
    if rs == [] {
    } else {
      var init, last := rs[..|rs| - 1], rs[|rs| - 1];
      CountsEveryLeaf(init);
      CountStep(init, last, rs);
    }
  }

  lemma CountStep(init: seq<Result>, last: Result, rs: seq<Result>)
    requires rs == init + [last] && MergeAll(init).num == Total(init) >= |MergeAll(init).leaves|
    requires MergeAll(init).num == |MergeAll(init).leaves| <==> Disjoint(init)
    ensures MergeAll(rs).num == Total(rs) >= |MergeAll(rs).leaves|
    ensures MergeAll(rs).num == |MergeAll(rs).leaves| <==> Disjoint(rs)
  {
    hide Disjoint;
    assert rs[..|init|] == init;
    OverlapSize(MergeAll(init).leaves, last.leaves);
    LastApart(init, last);
    DisjointPush(init, last, rs);
  }

  lemma LastApart(init: seq<Result>, last: Result)
    ensures MergeAll(init).leaves.Keys !! last.leaves.Keys <==>
            forall i :: 0 <= i < |init| ==> init[i].leaves.Keys !! last.leaves.Keys
  {
    forall k ensures k in MergeAll(init).leaves <==> HasLeaf(init, k) {
      MergeAllLeaves(init, k);
    }
    if forall i :: 0 <= i < |init| ==> init[i].leaves.Keys !! last.leaves.Keys {
      forall k | k in last.leaves ensures k !in MergeAll(init).leaves {
        assert forall i :: 0 <= i < |init| ==> k !in init[i].leaves;
      }
    }
    if MergeAll(init).leaves.Keys !! last.leaves.Keys {
      forall i | 0 <= i < |init| ensures init[i].leaves.Keys !! last.leaves.Keys {
        forall k | k in init[i].leaves ensures k !in last.leaves {
          assert HasLeaf(init, k);
        }
      }
    }
  }

  lemma DisjointPush(init: seq<Result>, last: Result, rs: seq<Result>)
    requires rs == init + [last]
    ensures Disjoint(rs) <==>
            Disjoint(init) && forall i :: 0 <= i < |init| ==> init[i].leaves.Keys !! last.leaves.Keys
  {
    assert rs[|init|] == last;
    forall i | 0 <= i < |init| ensures rs[i] == init[i] {
    }
    if Disjoint(rs) {
      forall i | 0 <= i < |init| ensures init[i].leaves.Keys !! last.leaves.Keys {
        assert rs[i].leaves.Keys !! rs[|init|].leaves.Keys;
      }
      forall i, j | 0 <= i < j < |init| ensures init[i].leaves.Keys !! init[j].leaves.Keys {
        assert rs[i].leaves.Keys !! rs[j].leaves.Keys;
      }
    }
  }
}
