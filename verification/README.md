# Verification of afind's search, indexing and counters

afind is a sharded, distributed code-search service. This project models the parts of it that carry loops, state
or protocols, and proves what they promise. Code that changes things in place is modelled by methods and classes
that do the same, each proved against a specification; goroutines and nodes that run side by side are modelled as
step systems, and what is proved of them holds in every run, under every interleaving.

| part | files | main results |
|---|---|---|
| File scan | `Text`, `GrepSpec`, `GrepLemmas`, `GrepTrailing`, `Grep`, `GrepTheorems`, `GrepSearch` | the scan through one buffer reports what splitting the whole file into lines and testing each would; it ends exactly on the files without a newline-free stretch as long as the buffer |
| Tree walk and file selection | `Walk`, `WalkProofs`, `Scanner`, `LookupErrors` | the recursive walk, for any callback with memory, is one scan of the preorder list of its calls; the scanner collects exactly the wanted files, each once; which of them are lost to errors, on any tree |
| Shard workers | `Shards`, `ShardRuns`, `Indexing` | every file is in the shards as often as the query asks for it, and exactly when that is once; nobody blocks for ever, every run ends, and any distribution over the shards comes about |
| Result merging | `Merge`, `MergeTheorems`, `EndToEnd`, `WrittenShards` | the outcome does not depend on how shards' results are grouped and ordered; the client gets exactly the lines to be reported, however the shards of a repository overlap, and is told their number; that is the number of matching lines exactly when no context was recorded |
| Search front end | `Repos`, `Queries`, `QueryTheorems`, `QueryRuns`, `DoSearch` | which hosts and keys are asked, and where errors are filed, for any iteration order and any interleaving of queueing and requests; what becomes of the repositories reported, for any order of arrival |
| Index requests | `IndexServer`, `IndexNet`, `IndexInvariant`, `IndexKeys`, `IndexTheorems`, `IndexAlone`, `IndexRace` | with searches and deletions writing the same stores: at most one hop, the right relayed answer, no marker left behind and back-fill in every run; exactly when a finished repository is safe, and when a request leaves its key absent or OK; without interference the steps come to what serving the request in one go does |
| Counters | `Counters`, `CounterRuns` | counters are sums modulo 2^64, reads are atomic and never change; no call is lost, and each can be completed |

Things the proofs turned up, where the code does not do what a reader of it or of its comments may expect:

- A newline-free stretch as long as the buffer makes the file scan go round for ever (`GrepTheorems.ScanEndsIff`);
  afind/grepper.go:161-162 cuts such a fill at 0. The scan's theorems have its absence as their precondition.
- Leading context does not reach over the cut between two fills, so it depends on the size of the buffer
  (`GrepTheorems.ContextLostAtCuts`, with an example in `GrepTheorems.ContextDependsOnBuffer`).
- Trailing context comes in pieces of one byte, because each newline is searched for from the newline that ends the
  match (`Grep.GetPostCtx`). The pieces are the lines after the match exactly if each of those bytes is a newline or
  the last byte (`GrepTheorems.TrailingIsLinesIff`, with a counterexample in `GrepTheorems.TrailingNotLines`).
- `NumMatches` is documented as leaving context lines out (afind/search.go:129-131). The scan of a shard does, but
  a merge recounts the entries, context included (`EndToEnd.ReportedCount`).
- When a name of a directory cannot be looked up, what comes after it in that directory is not indexed, and no error
  says so; a directory that is reached and cannot be listed ends the whole walk (`LookupErrors.LookupErrorLosesRest`).
  Everything wanted is collected exactly if each wanted file comes before the first such directory, and has no failing
  name before it, in its directory or in one it is in (`LookupErrors.NothingLostIff`; trees that lose a file:
  `LookupErrors.LostFile`).
- Of several directories, the scanner returns the last one's error only (`Scanner.Collector.Scan`), and that is
  overwritten before anyone looks at it (afind/index.go:247, 257): no walk error reaches the caller of `Index`, and
  the repository ends up OK (`Indexing.Index`).
- Directories of one query that lie within each other give their common files to the shards twice
  (`Indexing.NestedTwice`); the shards hold no file twice exactly if the query asks for no file that opens twice
  (`Indexing.IndexedOnceIff`). Two copies in one shard are counted twice by that shard (`EndToEnd.ShardCountIff`), two
  in different shards by the repository's result (`EndToEnd.RepoCountIff`). A client never sees that: its response
  recounts the repositories' results, in which each line is once (`EndToEnd.ReportedCount`).
- With a cap on back-end requests, the iteration stops at the cap even if local hosts are left, so whether all
  repositories are searched can depend on the order of a map (`QueryTheorems.AllOrdersCompleteIff`).
- All queries of a search share one metadata map. Remote addresses are right all the same, but an error is filed
  under whatever host the map names when the request fails: the right one exactly until the next host is named
  (`QueryRuns.FailFilesRightIff`). It is the right one in every iteration order and every interleaving exactly if there
  is no remote host, or one host only, or a cap of one (`QueryRuns.AllOrdersFileRightIff`).
- A repository reported OK by one result and, say, as being indexed by another is stored or not depending on which
  result arrives last (`DoSearch.OrderIrrelevantIff`).
- "A repo cannot be updated or replaced" (afind/api/index.go:146-147) holds of a finished repository exactly as long
  as no index request that found its key absent earlier still has something else to write
  (`IndexTheorems.OkKeptIff`), and searches and deletions write nothing that harms it
  (`IndexKeys.OutsideKeepsIff`). A second request for the key loses it (`IndexRace.SameKeyLosesOk`), and so does a
  search that is told of another repository, or of a failure while deletion is on (`IndexRace.SearchLosesOk`).
- With deletion off, a search that cannot read a shard can leave a key neither absent nor OK when an index request
  for it returns (`IndexRace.FailedOnReturn`); every request leaves its key absent or OK exactly at the nodes that
  delete repositories on errors (`IndexRace.CleanReturnIff`).
- An index request that succeeds returns an error that is a nil pointer, hence not nil (afind/api/index.go:221), and
  the HTTP handler answers 200 only for a key that was there already (`IndexServer.Server.WebIndex`).

Assumptions about code that is not part of this model: the regular-expression matcher returns the end of the first
line of its slice that passes an arbitrary test of lines (`Grep.FirstMatch`; `Grep.Match` is a matcher that does);
`par` calls each function once and waits for all of them; Go's maps may be iterated in any order and channels are
FIFO queues of their capacity.

## Model

| member | source | states |
|---|---|---|
| `Text.LinesRoundTrip` | afind/grepper.go:175-186 | splitting a file into lines, newlines included, loses nothing |
| `GrepTheorems.HitIs` | afind/grepper.go:168-187 | what a matching line is, in bytes: a piece between bytes 10 that passes the test without its newline; its number is one more than the bytes 10 before it; the test is told whether it begins and whether it ends the file |
| `Grep.Source.ReadFull` | afind/grepper.go:158-159 | how a fill ends: full, at the end of the stream, or with an error; the bytes read follow those kept |
| `Grep.LastIndex` | afind/grepper.go:162 | the place after the last newline is where the last line starts |
| `Grep.CountNL` | afind/grepper.go:245-256 | jumping from newline to newline counts all of them |
| `Grep.Match` | afind/grepper.go:169-173 | the contract assumed of the matcher can be met: first line of the slice that passes, or none |
| `Grep.GetPreCtx` | afind/grepper.go:260-281 | min(n, lines in the region) whole lines, nearest first |
| `Grep.ContextIsSuffix` | afind/grepper.go:260-281 | in reading order the collected context is a suffix of the region before the match |
| `Grep.GetPostCtx` | afind/grepper.go:283-307 | as called after a match: the first n bytes after its newline, one by one |
| `Grep.LocateMatch` | afind/grepper.go:175-182 | the matching line's start and end in the buffer, and the newlines before it |
| `Grep.EnterMatch` | afind/grepper.go:183-210 | a match and its leading context entered: exactly the lines up to it are recorded, no matching line overwritten |
| `Grep.EnterTrailing` | afind/grepper.go:212-221 | trailing context is up to three single bytes of the same fill, under the numbers after the match, over earlier ones; nothing before changes |
| `Grep.RecordPre` | afind/grepper.go:201-210 | leading context goes under the numbers just before the match, nothing else changes |
| `Grep.RecordPost` | afind/grepper.go:212-221 | trailing context goes under the numbers just after the match, nothing else changes |
| `Grep.ScanMatch` | afind/grepper.go:174-224 | one pass of the inner loop moves past the next matching line of the file, numbers it right and records it |
| `Grep.ScanFill` | afind/grepper.go:167-225 | the inner loop ends; the whole fill is recorded and the line number is that of the place reached |
| `Grep.CopyDown` | afind/grepper.go:229-230 | the tail behind the cut is moved to the front, in place |
| `Grep.Grepper.Fill` | afind/grepper.go:157-165 | a fill is the file's bytes from its start; it is cut after its last newline, or is the end of the file |
| `Grep.Grepper.Round` | afind/grepper.go:157-236 | kept and unread bytes are the unconsumed rest of the file, the line number is 1 + the lines consumed, `beginText` is set only at offset 0; a round leads from one fill to the next for as long as full buffers can be read |
| `Grep.Grepper.Reader` | afind/grepper.go:140-240 | the match count is the number of matching lines, all of them are reported with their text; without trailing context the report is exactly them and their leading context, with it also the bytes of `GrepTrailing.Trailed`; the loop ends |
| `GrepTheorems.CapacityIrrelevant` | afind/grepper.go:140-240 | without context, scans with any two buffers return the same map, as large as the match count |
| `GrepTheorems.StallsForever` | afind/grepper.go:161-165 | a full buffer without a newline is never left |
| `GrepTheorems.LongLineStalls` | afind/grepper.go:161-165 | every newline-free stretch as long as the buffer leads to one |
| `GrepTheorems.ScanEndsIff` | afind/grepper.go:157-237 | the scan ends if and only if the file has no such stretch |
| `GrepTheorems.ContextInOneFill` | afind/grepper.go:201-210 | in one fill, leading context is every line within three lines before a match with no match between |
| `GrepTheorems.ContextLostAtCuts` | afind/grepper.go:202 | a smaller buffer reports no other lines, loses exactly those near a match that one of its cuts separates from it, and none iff no cut falls so |
| `GrepTheorems.ContextDependsOnBuffer` | afind/grepper.go:202 | a file and two buffers for which the reports differ |
| `GrepTrailing.TrailsOf` | afind/grepper.go:212-221 | which line numbers the match of a line leaves bytes under: the three after it, as far as its fill goes |
| `GrepTrailing.TrailedBytes` | afind/grepper.go:212-221 | entering them keeps the report what it should be: lines first, then the byte of the last match before |
| `GrepTheorems.TrailingIsLinesIff` | afind/grepper.go:289-306 | the pieces are the first n lines after the match iff each of their bytes is a newline or the last of the text |
| `GrepTheorems.TrailingNotLines` | afind/grepper.go:289-306 | a text after a match for which they are not |
| `GrepSearch.ReadFile` | afind/grepper.go:129-138 | a file that cannot be opened has no matches; else the scan's report, or its error |
| `GrepSearch.Search` | afind/grepper.go:104-123 | for any list of candidates, also with a file twice: exactly the files with a match and no error but an ignored one are reported, with their lines; the count adds up the matching lines of each candidate; an error is returned iff a file with a match has another error |
| `Walk.ReadDirNames` | walkablefs/walker.go:41-52 | the names of a directory, collected and sorted |
| `Walk.Sort` | walkablefs/walker.go:49 | the same names with the same multiplicity, in the order of `Walk.StrLeqMeaning` |
| `Walk.StrLeqMeaning` | walkablefs/walker.go:49 | the order of names: a prefix comes first, else the first byte that differs decides |
| `Walk.SortedUnique` | walkablefs/walker.go:49 | the order of the listing does not matter |
| `WalkProofs.NodeScan` | walkablefs/walker.go:54-87 | the walk of a node is a scan of its preorder, whatever follows |
| `WalkProofs.NamesScan` | walkablefs/walker.go:71-85 | so is the loop over the names of a directory, with SkipDir and errors from each |
| `WalkProofs.WalkIsScan` | walkablefs/walker.go:33-39 | for any tree and any callback with memory: same calls, same signal as one scan of the preorder, where SkipDir at a directory skips what is below it, at a file the rest of its directory, an error ends the walk, and an error about a lookup ends its directory |
| `WalkProofs.WalkSelects` | walkablefs/walker.go:54-87 | every walk makes calls of the preorder, in that order, none twice |
| `WalkProofs.ErrorEndsScan` | walkablefs/walker.go:56-61 | an error returned is the answer to the last call |
| `WalkProofs.ErrorStops` | walkablefs/walker.go:56-61 | the first error ends the walk after a prefix of the preorder |
| `WalkProofs.ScanAll` | walkablefs/walker.go:54-87 | a callback that never objects sees the whole tree in preorder |
| `WalkProofs.PreorderOnce` | walkablefs/walker.go:71-85 | no place is in the preorder twice |
| `WalkProofs.PreorderCalls` | walkablefs/walker.go:54-87 | the calls are those for the nodes of the tree, each at its place: visits, with what the node is, directories that cannot be listed, names that cannot be looked up |
| `Scanner.MatchFileMeaning` | afind/path_matcher.go:29-47 | what it means for a path to be excluded: its end, not its directories |
| `Scanner.ExcludedPaths` | afind/excludes.go:5-14 | the paths excluded from indexing |
| `Scanner.RenderInjective` | walkablefs/walker.go:72 | different places of a tree have different path names |
| `Scanner.IndexedName` | walkablefs/walker.go:72 | the name indexed for a place: its names with slashes between, after the directory asked for unless that is the root; no leading slash |
| `Scanner.Collector.Call` | afind/index.go:320-334 | the callback's signal and what it appends |
| `Scanner.Collector.WalkInto` | walkablefs/walker.go:54-87 | the walk with this callback makes the calls of the specification and appends what they collect |
| `Scanner.Collector.WalkFrom` | walkablefs/walker.go:33-39 | the same from a root that may not exist |
| `Scanner.Collector.Scan` | afind/index.go:305-338 | the names of the query that are files, then each directory's, and the last walk's error |
| `Scanner.ScanCollects` | afind/index.go:318-337 | on an error-free tree: in preorder and without duplicates, exactly the regular files such that neither they nor a directory from the root down is excluded |
| `Scanner.CollectedFiles` | afind/index.go:318-337 | on an error-free tree a name is collected iff it is that of a place where the tree has a regular file, neither it nor a directory on the way being excluded |
| `Scanner.DirNamesWanted` | afind/index.go:318-337 | the same for all directories, one after the other |
| `LookupErrors.LookupErrorLosesRest` | walkablefs/walker.go:54-87 | on any tree: of what comes before the first directory reached that cannot be listed, exactly the wanted files are collected that have no failing name before them, in their directory or in one they are in; the walk returns that directory's error, or a missing root's, and no other |
| `LookupErrors.NothingLostIff` | walkablefs/walker.go:54-87 | nothing wanted is lost iff every wanted file comes before that directory and has no such name before it |
| `LookupErrors.LostFile` | walkablefs/walker.go:66-77 | directories that lose a regular file "b": "a" cannot be looked up, and nil is returned; or "a" cannot be listed, and its error is |
| `Shards.StepInv` | afind/index.go:246-267 | every step of producer and workers keeps: each openable name in one place, counts equal to contents, workers leave only when all is received |
| `Shards.RunInv` | afind/index.go:246-267 | so does every run |
| `Shards.ReportNeverBlocks` | afind/index.go:365-369 | a worker that reports its count always finds room in the channel |
| `Shards.Progress` | afind/index.go:340-372 | while a worker is not done, a step can be taken |
| `Shards.RunsEnd` | afind/index.go:246-267 | runs are finite, within a bound, and end only with every worker done |
| `Shards.AllIndexed` | afind/index.go:257-267 | at the end the shards hold each openable name as often as it was scanned, and the counts add up to their number |
| `Shards.OpenNamesCount` | afind/index.go:358-363 | a name that cannot be opened is in no shard |
| `ShardRuns.AnyDistribution` | afind/index.go:246-267 | for any assignment of the names to the workers there is a finished run in which each shard holds exactly the openable names assigned to it, in order |
| `ShardRuns.AtMostAHundred` | afind/index.go:249 | at most a hundred names wait in the channel |
| `ShardRuns.AHundredAhead` | afind/index.go:249 | and that many can, before any worker starts |
| `Indexing.IndexQuery.Normalize` | afind/index.go:89-122 | which requests are valid, in the order of the checks; a valid one has each directory once, '.' as '/' |
| `Indexing.ShardCount` | afind/index.go:222-227 | one shard if none is configured, 32 if more are, else as configured |
| `Indexing.CountFiles` | afind/index.go:264-267 | the number of files is the sum of the counts |
| `Indexing.ScanQuery` | afind/index.go:247 | the names handed to the workers are the files and the directories' picks |
| `Indexing.IndexedExactly` | afind/index.go:246-267 | whatever the interleaving, each name that opens is in the shards as often as the query asks for it: each time it is given as a file and once for each directory it is wanted in; no other name is, and the number recorded is theirs |
| `Indexing.IndexedOnceIff` | afind/index.go:246-267 | the shards hold no file twice iff no file that opens is asked for twice |
| `Indexing.NestedTwice` | afind/index.go:318-337 | a query that asks for a file twice: a directory, and one within it |
| `Indexing.CreateShards` | afind/index.go:231-239 | shard files are created in order up to the first that cannot be |
| `Indexing.Index` | afind/index.go:216-287 | an invalid request is refused; one of which a shard file cannot be created answers without a repository; else the repository is OK whenever the workers do not fail, whatever the walks returned |
| `Merge.SearchResult.AddFileRepoMatches` | afind/search.go:196-215 | adds lines under file and repository, creating maps as needed, and counts each line |
| `Merge.SearchResult.Update` | afind/search.go:162-186 | merging, in any order, adds the other's lines, errors and repositories, joins the global errors, keeps no empty maps, and counts every line of the other |
| `Merge.AddLinesLeaves` | afind/search.go:196-215 | the lines are added under their addresses and nothing else changes |
| `Merge.TidyUnique` | afind/search.go:200-209 | a result without empty maps is determined by its lines |
| `MergeTheorems.UpdateView` | afind/search.go:162-186 | what a merge is: a union of lines and a recount |
| `MergeTheorems.TreeUnion` | afind/search.go:162-186 | any grouping of disjoint results yields the union of their lines, and its size as the count |
| `MergeTheorems.MergeShapeIrrelevant` | afind/search.go:162-186 | merging over shards, repositories and hosts gives the same as any other grouping and order |
| `MergeTheorems.CountsEveryLeaf` | afind/search.go:211-214 | the count is at least the number of distinct lines, and equal iff no two results share one |
| `EndToEnd.SearchedRight` | afind/grepper.go:104-123 | the search of a shard yields exactly the lines to report of its candidate files, with their text, also if a file is a candidate twice |
| `EndToEnd.ShardCountIff` | afind/grepper.go:104-123 | a shard's own count is at least the number of its matching lines, and equal iff no file it reports is a candidate twice |
| `EndToEnd.RepoRight` | afind/search.go:181-185 | however its shards overlap, a repository's result has exactly the lines to report of their files, with their text |
| `EndToEnd.RepoCountIff` | afind/search.go:211-214 | a repository's own count is at least the number of its lines, and equal iff no two shards share one |
| `EndToEnd.ReportedCount` | afind/search.go:129-131 | from scan to client, however shards overlap: the client is told the number of the lines it gets, nothing twice; it is at least the number of matching lines, and equal iff no context line was recorded |
| `EndToEnd.ReportedCountWithoutContext` | afind/search.go:129-131 | without leading context it is that number |
| `EndToEnd.ReportedLinesExactly` | afind/search.go:181-185 | the client gets exactly the lines to report of all shards' files, each with its text, however shards overlap and results are grouped |
| `WrittenShards.WrittenApart` | afind/index.go:246-267 | if a query asks for no file that opens twice, no two of its shards hold the same file |
| `WrittenShards.IndexedApart` | afind/index.go:246-267 | so searches of the shards written for such queries share no file |
| `Repos.Matches` | afind/repo.go:103-112 | true iff keys both have agree, in any order of keys |
| `Repos.MatchesRegexp` | afind/repo.go:120-145 | true iff every key passes its filter, whatever the order and the error variable carried along |
| `Repos.PassesMeaning` | afind/repo.go:126-141 | an absent filter and one that does not compile let everything pass, an expression what it matches, one after an exclamation mark what it does not match |
| `Repos.SelectedMeaning` | afind/repo.go:181-208 | a repository is selected iff it is OK and agrees with, or passes, the given metadata at every key it has, too |
| `Repos.ReposMatchingMeta` | afind/repo.go:181-208 | distinct OK repositories that match: all of them, or exactly min(max, matching), in any order |
| `Repos.GetReposForKeys` | afind/api/find.go:172-187 | the named repositories in the wanted state, in order and as often as named |
| `Repos.ReposInConcat` | afind/api/find.go:172-187 | key by key, in the order of the keys: the repository, if it is there in the wanted state |
| `Repos.SelectRepos` | afind/api/find.go:104-114 | named OK repositories, or all that the metadata select |
| `Queries.GroupByHost` | afind/api/search.go:91-99 | each host's keys, in order; exactly the hosts that have keys |
| `Queries.KeysAtConcat` | afind/api/search.go:91-99 | a host's keys are taken repository by repository; without a host one counts as at the host "" |
| `Queries.AddressIs` | afind/api/server.go:62-73 | an address is the host, one colon and the port, which may be configured with its colon or without, or is 30800 |
| `Queries.IsLocalIff` | afind/api/server.go:37-60 | local are the four names of this machine, the configured host, and it without its domain |
| `Queries.QueueHost` | afind/api/search.go:107-124 | one request with all keys for a remote host, one per key for a local one |
| `Queries.GetSearchQueries` | afind/api/search.go:72-128 | for some order of the hosts, the requests of those served before the cap, sharing one metadata map that ends up naming the last |
| `QueryTheorems.PlansKeys` | afind/api/search.go:101-125 | requests have the keys of the hosts served, with multiplicity |
| `QueryTheorems.CapHolds` | afind/api/search.go:102-105 | never more remote requests than the cap |
| `QueryTheorems.CompleteIff` | afind/api/search.go:101-125 | for an order: all selected repositories are asked for iff the cap is not reached before the last host |
| `QueryTheorems.BelowCapComplete` | afind/api/search.go:102-105 | cap off or fewer remote hosts than it: every order is complete |
| `QueryTheorems.SomeOrderLoses` | afind/api/search.go:102-105 | otherwise (with one exception) an order that loses repositories |
| `QueryTheorems.AllOrdersCompleteIff` | afind/api/search.go:101-125 | every order is complete iff the cap is off, above the number of remote hosts, or equal to it with no local host |
| `QueryTheorems.OneHostEach` | afind/api/search.go:107-122 | each request is for one host; a remote one is addressed to host, colon, port and has all its keys, a local one has one, although the address is read from a map that changes with every host |
| `QueryTheorems.FiledRightIff` | afind/api/search.go:201-215 | after queueing, an error is filed under the host asked iff that is the last host served |
| `QueryTheorems.FilesRightIff` | afind/api/search.go:213-215 | after queueing, errors of all requests are filed under the host asked iff every host before the last one served is local |
| `QueryTheorems.SomeOrderMisfiles` | afind/api/search.go:101-125 | otherwise an order that misfiles: a remote host first, and another one |
| `QueryRuns.FailFilesRightIff` | afind/api/search.go:201-215 | while requests are queued: an error is filed under the host asked iff the request fails before the next host is named |
| `QueryRuns.FailsInTime` | afind/api/search.go:201-215 | the request of any remote host can fail as soon as it is queued, and is filed under it then |
| `QueryRuns.RunsFileRightIff` | afind/api/search.go:101-125 | in every interleaving of queueing and requests every error is filed under the host asked iff every host before the last one served is local |
| `QueryRuns.AllOrdersFileRightIff` | afind/api/search.go:101-125 | every order and every interleaving files every error right iff there is no remote host, or one host only, or a cap of one |
| `DoSearch.SearchServer.Note` | afind/api/search.go:282-287 | newer reports replace older ones, except that ERROR stays |
| `DoSearch.SearchServer.Apply` | afind/api/search.go:299-305 | OK repositories are set, others deleted if so configured, all others left alone |
| `DoSearch.SearchServer.Search` | afind/api/search.go:244-315 | merges in order of arrival; without a limit all results; with one, up to the first count that reaches it and no further; nothing of an invalid request; all errors and reports merged are in the response; then updates the store from them |
| `DoSearch.PlusAllKeys` | afind/search.go:163-169 | no error or report of a merged result is lost |
| `DoSearch.PlusAllLast` | afind/search.go:163-169 | of several entries for a key the one merged last stays |
| `DoSearch.JoinAllIs` | afind/search.go:170-174 | the global error is all errors from the first that is not empty on, one below another |
| `DoSearch.NoErrorIff` | afind/search.go:170-174 | the response has a global error iff some merged result has one |
| `DoSearch.StoredIsStoreAfter` | afind/api/search.go:299-305 | what the loop over the reports does to the store, as one write |
| `DoSearch.FailedIffReported` | afind/api/search.go:281-287 | a key ends in ERROR iff some merged result reported it so, in any order |
| `DoSearch.StoredIff` | afind/api/search.go:299-305 | a reported key is stored iff no report of it is other than OK, unless the reports are ambiguous |
| `DoSearch.OrderIrrelevantIff` | afind/api/search.go:280-305 | whether a key is stored is independent of the order of arrival iff its reports are not ambiguous |
| `DoSearch.OkOrErrorDecides` | afind/api/search.go:280-305 | with states OK and ERROR alone, what is set, deleted and left alone depends on which results there are, not on their order or number; a key is set iff some result reports it and none as failed |
| `IndexServer.MarkerGone` | afind/api/index.go:159-180 | whatever comes of the call, the store of a key absent before ends up as it was, plus the repository answered with if that is OK |
| `IndexServer.Server.ClearMarker` | afind/api/index.go:169-180 | the deferred cleanup removes a marker and nothing else |
| `IndexServer.Server.DoIndex` | afind/api/index.go:138-235 | for every outcome: a present key leaves the store unchanged and its repository is returned; for an absent one the store ends up as it was, plus the repository answered with if OK; invalid and unserviceable requests leave it unchanged and return an error; the error of an answer is not nil even if there is none |
| `IndexServer.Server.WebIndex` | afind/api/index.go:74-90 | the handler answers 200 iff the key was there already |
| `IndexInvariant.StepInv` | afind/api/index.go:138-235 | every step of every node, and every other write of the stores, keeps stores and answers under their keys; a marker only while a request for its key has set one and not cleared it; relays are made once, by clients' requests, with recursion off, and answer the request they were made for |
| `IndexInvariant.RunInv` | afind/api/index.go:138-235 | so does every run |
| `IndexInvariant.StepFrame` | afind/api/index.go:138-235 | a step of a request changes at most its own key at its own node; a search or deletion what it names |
| `IndexKeys.OutsideKeepsIff` | afind/api/search.go:299-305 | a search or deletion leaves an OK repository iff it does not name it, or reports the very same one, or a state that is not OK while deletion is off |
| `IndexKeys.StepKey` | afind/api/index.go:148-180 | unless it disturbs the key, a step keeps: what the store holds fits every request's phase, and one request in flight for the key |
| `IndexKeys.RunKey` | afind/api/index.go:148-180 | so does a run that does not disturb the key: no outside write that changes it, no second request that looks it up in vain |
| `IndexTheorems.NoMarkerLeft` | afind/api/index.go:169-180 | in every run, when no request for the key is between setting its marker and clearing up, its node holds no marker for it |
| `IndexTheorems.ClearedOrOk` | afind/api/index.go:169-180 | in every run in which no search stores the key as failed: on return it is absent or OK |
| `IndexTheorems.AnswerHeld` | afind/api/index.go:148-231 | in every run, a request answered with an OK repository had it under its key at its node at that moment: by the write that stored it or the lookup that found it |
| `IndexTheorems.AnswerKeptIff` | afind/api/index.go:207-210 | from then on it is kept in every continuation with harmless outside writes iff no request in flight threatens it then |
| `IndexTheorems.OkPersists` | afind/api/index.go:146-151 | an OK repository stored in a run that did not disturb its key stays for good, in every later run with harmless outside writes |
| `IndexTheorems.OkKeptIff` | afind/api/index.go:146-165 | an OK repository is kept in every such run iff no request in flight found its key absent earlier and has something else to write |
| `IndexTheorems.ThreatLoses` | afind/api/index.go:159-231 | a threat can be carried out, by steps of the request alone |
| `IndexTheorems.AnsweredByRelay` | afind/api/index.go:182-192 | a relayed request done with a repository has its relay's; the relay, at the node at the query's host, asks for the same key, root and metadata, with recursion off |
| `IndexTheorems.BackFill` | README.md:50-55 | in every run, if a relayed request ends with an OK repository, front end and back end each had that same one stored under the requested key, and have it still if it was safe from then on |
| `IndexTheorems.AtMostOneHop` | README.md:44-46 | in every run, however hosts are configured, at most two nodes handle a request, and a relay is not relayed |
| `IndexAlone.Arrives` | afind/api/index.go:51-57 | a request that arrives is in the network as it was made, and nothing else changes |
| `IndexAlone.MarkerSet` | afind/api/index.go:159-165 | the marker has the request's key, root and metadata, and is being indexed |
| `IndexAlone.FinishLeaves` | afind/api/index.go:194-231 | in any state, what each outcome of the call leaves under the key |
| `IndexAlone.ServedAlone` | afind/api/index.go:138-235 | from any state of the network there is a run of a request's own steps that comes to what `IndexServer.Server.DoIndex` promises, for every outcome of its call |
| `IndexAlone.RelayServed` | README.md:50-55 | back-fill happens: from any state in which neither end has the key, a run in which both get the repository the back end indexed, and the caller too |
| `IndexRace.SameKeyLosesOk` | afind/api/index.go:148-165 | a run of two requests for one key in which a stored repository is replaced by a marker |
| `IndexRace.SearchLosesOk` | afind/api/search.go:299-305 | a store whose OK repository a search replaces or removes |
| `IndexRace.FailedOnReturn` | afind/search.go:298-308 | for any node with deletion off, a run in which a search leaves a key failed when its index request returns |
| `IndexRace.CleanReturnIff` | afind/api/index.go:169-180 | in every run every request leaves its key absent or OK at a node iff the node deletes repositories on errors |
| `Counters.Server.Inc` | counters/counters.go:98-106 | one counter grows modulo 2^64, in place, and stays the sum of what was received; the empty key is ignored |
| `Counters.Server.Get` | counters/counters.go:111-116 | the sum modulo 2^64 of what was received for the key |
| `Counters.Server.GetAll` | counters/counters.go:118-123 | a new map, of the sums of what was received |
| `Counters.Server.SnapshotThenInc` | counters/counters.go:118-123 | later increments do not show in a snapshot: it holds the sums of what was received before |
| `Counters.BumpTotals` | counters/counters.go:100-101 | applying an increment keeps every counter the sum of its increments |
| `Counters.StepInv` | counters/counters.go:87-127 | every step of the goroutine and its clients keeps counters, answers on their way and answers given right, and takes back nothing |
| `Counters.CountersAreSums` | counters/counters.go:98-106 | in every run each counter is the sum modulo 2^64 of the increments accepted, except while one is being applied |
| `Counters.ReadsAreAtomic` | counters/counters.go:111-123 | in every run each answer is the sums at one moment after the call, includes all increments accepted before the call, and never changes |
| `Counters.LoopNeverBlocks` | counters/counters.go:87-127 | the goroutine always has a next step: the client of an answer is there to take it |
| `CounterRuns.IncrementsArrive` | counters/counters.go:66-71 | in every run, the increments called for, of something and under a key, are the accepted ones and those still being sent, with multiplicity |
| `CounterRuns.ReadsArrive` | counters/counters.go:54-63 | in every run, the reads called for, with key and moment, are the answered ones and those under way |
| `CounterRuns.ReadSeesCalls` | counters/counters.go:54-80 | every answer is to a call of that key; every increment called for before that call, and not still being sent then, is in its sum |
| `CounterRuns.CallsComplete` | counters/counters.go:87-127 | from every reachable state every call under way can be completed: an increment by being accepted next, a read by its answer |

## Left out

- Grep.Grepper.Reader: its precondition is the exact condition under which the loop ends.
- GrepSearch.Search: stated with trailing context off.
- Grep.Match: the regular-expression engine, the trigram index and its posting queries are libraries that are not part of this model; any test of lines stands for an expression.
- Grep.GetPreCtx: returns early where the first pass of the loop would break.
- Scanner.ScanCollects: names in a directory are distinct, not empty and hold no slash, as a file system's are; roots are not cleaned as `filepath.Join` would.
- LookupErrors.LookupErrorLosesRest: names within a directory are distinct.
- WalkProofs.WalkIsScan: the tree does not change during the walk, and names within a directory are distinct; the callback is a function of the calls made so far.
- Shards.RunInv: runs that are not cancelled; writing to an index file and its size are left out.
- Indexing.ShardCount: a negative configured number makes the code panic.
- DoSearch.SearchServer.Search: results are taken in order of arrival; cancelling the requests still under way after an early stop has no effect on what was merged.
- Merge.SearchResult.Update: the count is an unbounded number, not 64 bits; adding durations is left out.
- Queries.GetSearchQueries: the metadata map exists (a nil map makes the code panic).
- Queries.RemoteSearch: the call itself is left out; only its address, its keys, the map it holds and the host its error is filed under are modelled.
- IndexServer.Server.DoIndex: what `par` returns as an error is a parameter; error texts stand for error values.
- IndexServer.Server.WebIndex: decoding the request and writing the body are left out (for the nil pointer, writing the body calls a method on it).
- IndexTheorems.OkKeptIff: the deferred cleanup's lookup and delete are one step, and so is each write of a search to a store. A search that cannot read a shard may hold any repository, also one that is no longer stored; that it marks a repository other results share is not modelled.
- Counters.ReadsAreAtomic: runs before `Close`.
- Line numbers are numbers here, not decimal strings, and the buffer's capacity is a parameter instead of 1 MiB.
- Cancellation and timeouts inside the searcher of one repository, and its goroutines' writes to a shared response.
- A one-hop property of searches: nothing in the search path consults the recursion flag.
- Finding files by name (afind/find.go, afind/api/find.go), a second copy of the scatter and gather, except for the selection of repositories.
- `getRepos`, which no request handler calls; RPC and HTTP servers, JSON, the file-backed store, command-line tools, logging, durations and sizes.
