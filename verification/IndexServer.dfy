/** One index request at one node: the marker that says a repository is being indexed, and what becomes of it. */
module IndexServer {
  import opened Repos
  import Queries

  datatype MaybeRepo = NoRepo | SomeRepo(repo: Repo)

  datatype IndexResult = IndexResult(repo: MaybeRepo, error: string)

  /** What comes of the local or remote indexing call: nothing in time, a nil result, or a result. */
  datatype Outcome = TimedOut | NilResult | Answer(result: IndexResult)

  /** A Go error: nil, a nil pointer of an error type (which compares as not nil), or a message. */
  datatype GoError = Nil | NilPointer | Message(text: string)

  /** The error of a result, a pointer that may be nil, assigned to a Go error. */
  function ErrorOf(result: IndexResult): GoError {
    if result.error == "" then NilPointer else Message(result.error)
  }

  datatype IndexQuery = IndexQuery(key: string, root: string, meta: Meta, valid: bool, recurse: bool)

  /** The temporary repository that marks a key as being indexed. */
  function Marker(q: IndexQuery): Repo {
    Repo(q.key, q.root, q.meta, INDEXING, 0, 0)
  }

  predicate Marked(store: Store, key: string) {
    key in store && store[key].state == INDEXING
  }

  // ----- the writes of a request, one by one

  function Mark(store: Store, q: IndexQuery): Store {
    store[q.key := Marker(q)]
  }

  function Conclude(store: Store, key: string, o: Outcome, deleteOnError: bool): Store {
    match o
    case TimedOut => store
    case NilResult => store
    case Answer(IndexResult(SomeRepo(r), _)) =>
      if r.state == OK then store[r.key := r]
      else if deleteOnError then store - {key}
      else store
    case Answer(IndexResult(NoRepo, _)) => store - {key}
  }

  function Cleanup(store: Store, key: string): Store {
    if Marked(store, key) then store - {key} else store
  }

  /** What the caller is told. */
  function ResultOf(o: Outcome): IndexResult {
    match o
    case TimedOut => IndexResult(NoRepo, "timeout")
    case NilResult => IndexResult(NoRepo, "no_repo_found")
    case Answer(result) => result
  }

  ghost predicate AnsweredOk(o: Outcome) {
    o.Answer? && o.result.repo.SomeRepo? && o.result.repo.repo.state == OK
  }

  /** Whatever comes of the call, the marker goes: the store ends up as it was, plus the repository answered with
      if that is OK. */
  lemma MarkerGone(store: Store, q: IndexQuery, o: Outcome, deleteOnError: bool)
    requires q.key !in store
    ensures Cleanup(Conclude(Mark(store, q), q.key, o, deleteOnError), q.key)
         == if AnsweredOk(o) then store[o.result.repo.repo.key := o.result.repo.repo] else store
  {
  }

  class Server {
    var repos: Store
    const host: string
    const deleteRepoOnError: bool

    constructor (repos: Store, host: string, deleteRepoOnError: bool)
      ensures this.repos == repos && this.host == host && this.deleteRepoOnError == deleteRepoOnError
    {
      this.repos, this.host, this.deleteRepoOnError := repos, host, deleteRepoOnError;
    }

    /** The deferred cleanup: if the final repository has not been set, the temporary one goes. */
    method ClearMarker(key: string)
      modifies this`repos
      ensures repos == Cleanup(old(repos), key)
      ensures repos == if key in old(repos) && old(repos)[key].state == INDEXING then old(repos) - {key} else old(repos)
    {
      if key in repos {
        var r := repos[key];
        if r.state != INDEXING {
          return;
        }
        repos := repos - {key};
      }
    }

    /** There is a call to make: the request is for this host, or may be relayed. */
    predicate Serviceable(q: IndexQuery) {
      Queries.IsLocal(host, MetaHost(q.meta)) || q.recurse
    }

    /** Serves a request, alone on its store. `o` is what the call made for it comes to, `parErr` the error its
        execution returns. */
    method DoIndex(q: IndexQuery, o: Outcome, parErr: GoError) returns (resp: IndexResult, err: GoError)
      modifies this`repos
      ensures q.key in old(repos) ==>
                repos == old(repos) && resp == IndexResult(SomeRepo(old(repos)[q.key]), "") && err == Nil
      ensures q.key !in old(repos) && q.valid && Serviceable(q) ==>
                && (o == TimedOut ==> resp == IndexResult(NoRepo, "timeout") && err == parErr)
                && (o == NilResult ==> resp == IndexResult(NoRepo, "no_repo_found") && err == parErr)
                && (o.Answer? ==>
                      resp == o.result && err == if resp.error == "" then NilPointer else Message(resp.error))
                && repos == if AnsweredOk(o) then old(repos)[o.result.repo.repo.key := o.result.repo.repo]
                            else old(repos)
      ensures q.key !in old(repos) && !q.valid ==>
                repos == old(repos) && resp == IndexResult(NoRepo, "value_error") && err == Message("value_error")
      ensures q.key !in old(repos) && q.valid && !Serviceable(q) ==>
                repos == old(repos) && resp == IndexResult(NoRepo, "") && err == Message("rpc_client_unavailable")
    {
      var local := Queries.IsLocal(host, MetaHost(q.meta));
      resp, err := IndexResult(NoRepo, ""), Nil;
      if q.key in repos {
        resp := IndexResult(SomeRepo(repos[q.key]), "");
        return;
      }
      if !q.valid {
        resp, err := IndexResult(NoRepo, "value_error"), Message("value_error");
        return;
      }
      MarkerGone(repos, q, o, deleteRepoOnError);
      repos := repos[q.key := Marker(q)];
      if local || q.recurse {
        err := parErr;
        match o
        case TimedOut =>
          resp := IndexResult(NoRepo, "timeout");
        case NilResult =>
          resp := IndexResult(NoRepo, "no_repo_found");
        case Answer(incoming) =>
          if incoming.repo.SomeRepo? {
            if incoming.repo.repo.state == OK {
              repos := repos[incoming.repo.repo.key := incoming.repo.repo];
            } else if deleteRepoOnError {
              repos := repos - {q.key};
            }
          } else {
            repos := repos - {q.key};
          }
          resp, err := incoming, ErrorOf(incoming);
      } else {
        err := Message("rpc_client_unavailable");
        repos := repos - {q.key};
        assert repos == old(repos);
      }
      ClearMarker(q.key);
    }

    /** The HTTP handler. A request served with a new repository is answered 500 like a failed one: the error
        it is served with is a nil pointer, which is not nil. */
    method WebIndex(q: IndexQuery, o: Outcome, parErr: GoError) returns (status: nat)
      modifies this`repos
      ensures status == 200 || status == 500
      ensures status == 200 <==> q.key in old(repos)
      ensures q.valid && q.key !in old(repos) && AnsweredOk(o) && o.result.repo.repo.key == q.key ==>
                status == 500 && q.key in repos && repos[q.key] == o.result.repo.repo
    {
      var ir, err := DoIndex(q.(recurse := true), o, parErr);
      if ir.error != "" {
        status := 500;
      } else if err != Nil {
        status := 500;
      } else {
        status := 200;
      }
    }
  }
}
