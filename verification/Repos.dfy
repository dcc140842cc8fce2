/** Repositories: their state and metadata. */
module Repos {

  /** Only repositories that are OK are searched. */
  datatype State = NULL | INDEXING | OK | ERROR

  type Meta = map<string, string>

  datatype Repo = Repo(key: string, root: string, meta: Meta, state: State, numShards: nat, numFiles: nat)
  {
    function Host(): string {
      MetaHost(meta)
    }
  }

  function MetaHost(meta: Meta): string {
    if "host" in meta then meta["host"] else ""
  }

  // ----- metadata filters

  /** A key that both have must have the same value in both. */
  ghost predicate MetaMatches(m: Meta, other: Meta) {
    forall k :: k in m && k in other ==> m[k] == other[k]
  }

  method Matches(m: Meta, other: Meta) returns (b: bool)
    ensures b <==> MetaMatches(m, other)
    ensures b <==> forall k :: k in m && k in other ==> m[k] == other[k]
  {
    var todo := m.Keys;
    while todo != {}
      invariant todo <= m.Keys
      invariant forall k :: k in m && k !in todo && k in other ==> m[k] == other[k]
      decreases todo
    {
      var k :| k in todo;
      todo := todo - {k};
      if k in other {
        if m[k] != other[k] {
          return false;
        }
      }
    }
    b := true;
  }

  datatype Regexp = NoRegexp | Regexp(matches: string -> bool)

  /** A regular-expression compiler: an expression may be invalid. */
  type Compiler = string -> Regexp

  function Filter(other: Meta, k: string): string {
    if k in other then other[k] else ""
  }

  predicate Negated(filter: string) {
    filter != "" && filter[0] == '!'
  }

  /** A value passes an absent or invalid filter, an expression it matches, a negated one it does not match. */
  predicate Passes(compile: Compiler, filter: string, value: string) {
    var reg := if Negated(filter) then compile(filter[1..]) else if filter != "" then compile(filter) else NoRegexp;
    reg.NoRegexp? || (reg.matches(value) <==> !Negated(filter))
  }

  /** An absent filter lets everything pass, and so does an expression that does not compile; else a filter lets pass
      what its expression matches or, after an exclamation mark, what it does not match. */
  lemma PassesMeaning(compile: Compiler, expr: string, value: string)
    ensures Passes(compile, "", value)
    ensures compile(expr).NoRegexp? ==> Passes(compile, "!" + expr, value)
    ensures compile(expr).Regexp? ==> (Passes(compile, "!" + expr, value) <==> !compile(expr).matches(value))
    ensures expr != "" && expr[0] != '!' && compile(expr).NoRegexp? ==> Passes(compile, expr, value)
    ensures expr != "" && expr[0] != '!' && compile(expr).Regexp? ==>
              (Passes(compile, expr, value) <==> compile(expr).matches(value))
  {
    assert ("!" + expr)[1..] == expr;
  }

  /** So a repository is let pass by the filters exactly if each of its values is; a filter for a key it does not have
      is ignored. */
  lemma MetaPassesMeaning(compile: Compiler, m: Meta, other: Meta)
    ensures MetaPasses(compile, m, other) <==>
            forall k :: k in m && k in other ==> Passes(compile, other[k], m[k])
  {
    hide Negated;
    forall k | k in m && k !in other ensures Passes(compile, Filter(other, k), m[k]) {
      PassesMeaning(compile, "", m[k]);
    }
  }

  ghost predicate MetaPasses(compile: Compiler, m: Meta, other: Meta) {
    forall k :: k in m ==> Passes(compile, Filter(other, k), m[k])
  }

  /** The error variable outlives the iterations, so an earlier key's error may still be set when a later key
      is looked at; the answer does not depend on it, nor on the order of the keys. */
  method MatchesRegexp(compile: Compiler, m: Meta, other: Meta) returns (b: bool)
    ensures b <==> MetaPasses(compile, m, other)
    ensures b <==> forall k :: k in m && k in other ==> Passes(compile, other[k], m[k])
  {
    MetaPassesMeaning(compile, m, other);
    var err := false;
    var todo := m.Keys;
    while todo != {}
      invariant todo <= m.Keys
      invariant forall k :: k in m && k !in todo ==> Passes(compile, Filter(other, k), m[k])
      decreases todo
    {
      var k :| k in todo;
      todo := todo - {k};
      var reg, nomatch := NoRegexp, false;
      var ov := Filter(other, k);
      if Negated(ov) {
        nomatch := true;
        reg := compile(ov[1..]);
        err := reg.NoRegexp?;
      } else if ov != "" {
        reg := compile(ov);
        err := reg.NoRegexp?;
      }
      if err || reg.NoRegexp? {
        continue;
      }
      if nomatch && reg.matches(m[k]) {
        return false;
      } else if !nomatch && !reg.matches(m[k]) {
        return false;
      }
    }
    b := true;
  }

  // ----- selection

  type Store = map<string, Repo>

  ghost predicate Selected(compile: Compiler, repo: Repo, meta: Meta, metaRegexp: bool) {
    repo.state == OK && if metaRegexp then MetaPasses(compile, repo.meta, meta) else MetaMatches(repo.meta, meta)
  }

  ghost function SelectedKeys(compile: Compiler, store: Store, meta: Meta, metaRegexp: bool): set<string> {
    set key | key in store && Selected(compile, store[key], meta, metaRegexp)
  }

  lemma SelectedMeaning(compile: Compiler, store: Store, meta: Meta, metaRegexp: bool, key: string)
    ensures key in SelectedKeys(compile, store, meta, metaRegexp) <==>
              && key in store && store[key].state == OK
              && forall k :: k in store[key].meta && k in meta ==>
                   if metaRegexp then Passes(compile, meta[k], store[key].meta[k]) else store[key].meta[k] == meta[k]
  {
    if key in store {
      hide Passes;
      MetaPassesMeaning(compile, store[key].meta, meta);
    }
  }

  /** Whether a repository is taken. */
  method Select(compile: Compiler, repo: Repo, meta: Meta, metaRegexp: bool) returns (b: bool)
    ensures b <==>
            repo.state == OK
            && (if metaRegexp then MetaPasses(compile, repo.meta, meta) else MetaMatches(repo.meta, meta))
  {
    b := false;
    if repo.state != OK {
      return;
    }
    if !metaRegexp {
      b := Matches(repo.meta, meta);
    } else {
      b := MatchesRegexp(compile, repo.meta, meta);
    }
  }

  /** Filters the store, in any order, up to a limit. `taken` names the entries of the result. */
  method ReposMatchingMeta(compile: Compiler, store: Store, meta: Meta, metaRegexp: bool, max: int)
    returns (result: seq<Repo>, ghost taken: seq<string>)
    ensures |taken| == |result|
    ensures forall i :: 0 <= i < |taken| ==>
              taken[i] in SelectedKeys(compile, store, meta, metaRegexp) && result[i] == store[taken[i]]
    ensures forall i, j :: 0 <= i < j < |taken| ==> taken[i] != taken[j]
    ensures var n := |SelectedKeys(compile, store, meta, metaRegexp)|;
            && (max == 0 ==> |result| == n)
            && (max > 0 ==> |result| == if n < max then n else max)
            && (max < 0 ==> |result| <= 1)
    ensures max == 0 ==> forall key :: key in SelectedKeys(compile, store, meta, metaRegexp) ==> key in taken
  {
    hide Selected, MetaPasses, MetaMatches;
    result, taken := [], [];
    var todo := store.Keys;
    ghost var all := SelectedKeys(compile, store, meta, metaRegexp);
    while todo != {}
      invariant todo <= store.Keys && |taken| == |result|
      invariant forall key :: key in taken <==> key in all && key !in todo
      invariant forall i :: 0 <= i < |taken| ==> taken[i] in all && result[i] == store[taken[i]]
      invariant forall i, j :: 0 <= i < j < |taken| ==> taken[i] != taken[j]
      invariant max < 0 ==> result == []
      invariant max > 0 ==> |result| < max
      decreases todo
    {
      var key :| key in todo;
      todo := todo - {key};
      var r := store[key];
      if r.state != OK {
        NotSelected(compile, store, meta, metaRegexp, key);
        continue;
      }
      var b := Select(compile, r, meta, metaRegexp);
      IsSelected(compile, store, meta, metaRegexp, key, b);
      if b {
        result, taken := result + [r], taken + [key];
      }
      if !(max == 0 || |result| < max) {
        TakenSize(taken, all);
        return;
      }
    }
    TakenSize(taken, all);
    assert forall key :: key in taken <==> key in all;
  }

  lemma NotSelected(compile: Compiler, store: Store, meta: Meta, metaRegexp: bool, key: string)
    requires key in store && store[key].state != OK
    ensures key !in SelectedKeys(compile, store, meta, metaRegexp)
  {
  }

  lemma IsSelected(compile: Compiler, store: Store, meta: Meta, metaRegexp: bool, key: string, b: bool)
    requires key in store && store[key].state == OK
    requires b <==>
             if metaRegexp then MetaPasses(compile, store[key].meta, meta) else MetaMatches(store[key].meta, meta)
    ensures b <==> key in SelectedKeys(compile, store, meta, metaRegexp)
  {
  }

  /** Different elements of a set are no more than it has, and as many if they are all. */
  lemma {:induction false} TakenSize(taken: seq<string>, all: set<string>)
    requires forall i :: 0 <= i < |taken| ==> taken[i] in all
    requires forall i, j :: 0 <= i < j < |taken| ==> taken[i] != taken[j]
    ensures |taken| <= |all|
    ensures (forall key :: key in all ==> key in taken) ==> |taken| == |all|
    decreases taken
  {
    if taken == [] {
      if forall key :: key in all ==> key in taken {
        assert all == {};
      }
    } else {
      var rest := all - {taken[0]};
      assert forall i :: 0 <= i < |taken[1..]| ==> taken[1..][i] == taken[i + 1];
      TakenSize(taken[1..], rest);
      assert all == rest + {taken[0]};
      assert forall key :: key in taken ==> key == taken[0] || key in taken[1..];
    }
  }

  /** The repositories among `keys` that are in a state, one for each time the key is given. */
  function ReposIn(store: Store, keys: seq<string>, state: State): seq<Repo> {
    if keys == [] then []
    else
      var key := keys[|keys| - 1];
      ReposIn(store, keys[..|keys| - 1], state) + if key in store && store[key].state == state then [store[key]] else []
  }

  /** Key by key, in the order of the keys. */
  lemma {:induction false} ReposInConcat(store: Store, a: seq<string>, b: seq<string>, state: State)
    ensures ReposIn(store, a + b, state) == ReposIn(store, a, state) + ReposIn(store, b, state)
    ensures |b| == 1 ==>
              ReposIn(store, b, state) == if b[0] in store && store[b[0]].state == state then [store[b[0]]] else []
    decreases |b|
  {
    if b == [] {
      assert a + b == a;
    } else {
      assert (a + b)[..|a + b| - 1] == a + b[..|b| - 1];
      ReposInConcat(store, a, b[..|b| - 1], state);
    }
  }

  method GetReposForKeys(store: Store, keys: seq<string>, state: State) returns (repos: seq<Repo>)
    ensures repos == ReposIn(store, keys, state)
    ensures forall r :: r in repos <==> exists key :: key in keys && key in store && store[key] == r && r.state == state
  {
    repos := [];
    for i := 0 to |keys|
      invariant repos == ReposIn(store, keys[..i], state)
      invariant forall r :: r in repos <==>
                  exists j :: 0 <= j < i && keys[j] in store && store[keys[j]] == r && r.state == state
    {
      assert keys[..i + 1][..i] == keys[..i];
      if keys[i] in store {
        var repo := store[keys[i]];
        if repo.state == state {
          repos := repos + [repo];
        }
      }
    }
    assert keys[..|keys|] == keys;
  }

  /** The repositories a search is for: the OK ones among the keys it names or, if it names none, all that the
      metadata select. */
  method SelectRepos(compile: Compiler, store: Store, keys: seq<string>, meta: Meta, metaRegexp: bool)
    returns (repos: seq<Repo>)
    ensures keys != [] ==> repos == ReposIn(store, keys, OK)
    ensures keys == [] ==>
              && |repos| == |SelectedKeys(compile, store, meta, metaRegexp)|
              && forall r :: r in repos <==>
                   exists key :: key in SelectedKeys(compile, store, meta, metaRegexp) && store[key] == r
  {
    hide Selected;
    if |keys| > 0 {
      repos := GetReposForKeys(store, keys, OK);
    } else {
      ghost var taken;
      repos, taken := ReposMatchingMeta(compile, store, meta, metaRegexp, 0);
      forall key | key in SelectedKeys(compile, store, meta, metaRegexp) ensures store[key] in repos {
        var i :| 0 <= i < |taken| && taken[i] == key;
        assert repos[i] == store[key];
      }
    }
  }
}
