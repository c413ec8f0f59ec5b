# A model of coredevs

coredevs assembles an index of Ethereum core developers from several datasources. It keeps each
source's last good rows, serves an index merged from them, persists it, and, in a cluster, publishes
it through one Postgres row that reader pods poll. This project models that chain in Dafny and proves
what it promises: `dafny verify dfyconfig.toml` checks every file.

| file | what it models |
| --- | --- |
| `Lists.dfy`, `Text.dfy` | sequences, ASCII case folding, the order of Go strings, sorting |
| `Source.dfy`, `Indexes.dfy` | membership rows, and what an index built from them is, declaratively |
| `IndexBuild.dfy`, `IndexReads.dfy`, `People.dfy` | the loops that build, flatten and read an index |
| `RoundTrip.dfy` | flattening an index and building it again |
| `Syncing.dfy`, `Syncer.dfy` | the syncer as a transition system, and as an object over real arrays |
| `SyncRuns.dfy`, `Scheduling.dfy` | invariants over every run, and what goroutine order can change |
| `Floors.dfy` | what one sync does to each source, and to what is served and saved, in counts and lists |
| `Restart.dfy`, `Recovery.dfy` | crash and restart |
| `Replication.dfy`, `Nodes.dfy` | publisher, row and pollers, in micro-steps and as objects |
| `Coverage.dfy` | which sources an index shows, and when a sync keeps one |
| `Cluster.dfy`, `Comeback.dfy`, `ClusterKeys.dfy` | writer, row and readers together; restarts; published keys |
| `Keys.dfy`, `Walker.dfy` | the key cache, its files, and the paced walk |
| `Markdown.dfy`, `ProtocolGuild.dfy` | the Protocol Guild row grammar and document parser |
| `Patterns.dfy`, `Documents.dfy` | the row grammar against its regular expressions, and a parse in terms of the document's text |
| `GithubOrg.dfy` | GitHub pagination and the github-org and manual sources |

Conventions. Go's map iteration is "pick any remaining key"; `sort.Slice` is any ordered permutation;
source goroutines finish in an arbitrary order; a fetch, a disk operation and a query are inputs that
may succeed or fail. An object's methods are proved against functions on values (`Built`, `SyncNext`,
`LoadEffect`, `Parsed`), and the properties are proved about those functions. Those functions, and the
primitives under them (case folding, order, floors, events, patterns), are characterised in turn by laws
that do not mention them, in literals, character codes, counts, positions and lists.

Hypotheses that recur, each a fact about the inputs:
*hygiene* (`FromSource`, `OwnRows`: a source's rows carry its own name, and an org only if it is `github-org`),
which `ParsedFromSource`, `FetchedFromSource` and `ManualFromSource` prove of the three shipped
sources; and, for the simulation results of `Recovery.dfy` and `HonestSourcePasses` only, *honesty*: an
accepted fetch has at least one non-blank, non-excluded row. The shipped github-org source is not honest,
so what happens without honesty is stated exactly: `SyncKeepsIff`, `NothingErasedIff`, `RecoveryShowsIff`.
Successful fetches of one handle's keys happen at increasing times (`Clocked`). Every process of the cluster
has a configuration of its own.
Nothing is assumed of publish generations, which come from `UnixNano` and may repeat or go backwards:
coherence, monotonicity and no-erasure hold for any, and `SkipsSoundIff` says exactly which published
logs make skipping sound.

## Where the code and its documentation differ

- README.md:41 says a starved sync is neither served nor persisted. A process that has served nothing
  yet does serve it (internal/syncer/syncer.go:238, 249); `SyncRefines` states both cases and
  `StarvedColdStart` is such a first sync.
- internal/syncer/syncer.go:186-188 says Sync does not publish; it does, and the model follows it.
- internal/syncer/syncer.go:173 says statuses are sorted by name; they are listed in map order, so they are
  sorted whatever that order is only when there is at most one (`StatusesSortedIff`).
- internal/syncer/syncer.go:151-163 and cmd/coredevs/cluster.go:130-153 present the published row as
  what a restarted writer recovers from, but any error reading it counts as no row. `RecoveryShowsIff`
  says exactly which sources the next published row has, for any fetches, `RecoveryKeepsIff` the simpler
  condition for an honest source, and `UnreachableRowErases` is a run that loses one.
- cmd/coredevs/cluster.go:216 says load pulls the snapshot if its generation changed. A generation that
  repeats for a different row is never loaded (`RepeatedGenerationIsStale`); `SkipsSoundIff` has the
  exact condition.
- internal/index/index.go:33 promises first-seen casing. Across sources "first" is whichever goroutine
  finished first; `OrderInvisibleIff` says exactly when that cannot be seen, and `CasingDependsOnOrder`
  is a pair of sources for which it can.
- internal/keys/keys.go:366-367 says a restart keeps every developer fetched so far. It keeps those whose latest
  success was persisted - written, under a safe file name, and neither dropped nor lost with its directory since -
  and only if the directory survives and can be read (`RestartRecoversIff`, `PersistedIff`): not `dependabot[bot]`
  (`BotIsForgotten`), not a handle whose write failed (`FailedWriteIsForgotten`), and nobody on a new directory,
  where the first row published takes every reader's keys away (`KeysRecoverIff`, `NewDirectoryErasesKeys`).
- internal/config/config.go:31 says excluded handles are dropped from every team, regardless of source. A process
  that starts from the row or snapshot of one that did not exclude them yet goes on serving and publishing them
  while its syncs leave that index alone: `ExclusionIff` and `RecoveryExcludesIff` are the exact conditions, and
  `ExcludedHandleIsPublished` is such a run.
- internal/syncer/syncer.go:186-188 says a transient outage never drops a team. A github-org fetch in which
  every org fails is an empty success (`TotalOutageIsEmptySuccess`), and config.yaml:39 ships it without a
  floor. While other sources work, such an outage drops the source from what is served and saved if and only
  if its floor is disabled (`GithubOutageKeepsIff`), and then from the published row (`GithubOutageErases`).
  `SyncKeepsIff` is the exact condition for any source and any fetches.

## Model

| member | source | states |
|---|---|---|
| Text.FoldIff | internal/index/index.go:86 | two handles have one key if and only if they have equal length and agree letter by letter: the same character, or the same letter of the alphabet |
| Text.FoldIsSmall | internal/index/index.go:86 | a key is its handle up to case, has no capital, and a handle without capitals is its own key |
| Text.LtIff | internal/index/index.go:149-157 | a string is before another if and only if, at the first place where they differ, it has ended or has the smaller character |
| Indexes.BuiltValid | internal/index/index.go:69-107 | every built index has no empty team or member, keys that are the lowercased handles, and strictly sorted provenance without blank orgs |
| Indexes.ProvenanceIgnoresOrder | internal/index/index.go:69-107 | reordering or repeating rows changes no team, handle, source or org |
| Indexes.BuildIgnoresInterleaving | internal/index/index.go:69-107 | a reordering that keeps each (team, lowercased handle) group in order gives the identical index, casing and names included |
| Indexes.ViewIffProvenance | internal/index/index.go:69-107 | two row lists build to the same provenance view if and only if they agree on presence, sources and orgs at every team and handle |
| Indexes.BuiltPlainly | internal/index/index.go:69-107 | a team has a developer if and only if some usable row says so, in any casing; the handle is that of the first such row, the name that of the first that has one, sources and orgs the ascending lists of exactly what such rows carry |
| Indexes.MembersApart | internal/index/index.go:69-107 | no two members of a team have handles that agree up to case |
| Indexes.RowsShareIff | internal/index/index.go:86-104 | two usable rows of a team share a member if and only if their handles agree letter by letter up to case |
| IndexBuild.Build | internal/index/index.go:69-107 | the folding loop, for any map iteration order, computes the declaratively described index: first handle, first non-empty name, sorted sets of sources and orgs of each group |
| IndexBuild.SortTeam | internal/index/index.go:246-253 | sorting provenance replaces each list by the one ascending listing of its elements and changes nothing else |
| IndexReads.SortedKeys | internal/index/index.go:149-157 | the team slugs come out as their unique ascending listing whatever order the map yields them in |
| IndexReads.Members | internal/index/index.go:162-181 | exactly the members the filter selects, by ascending lowercased handle, for any map order and any unstable sort |
| IndexReads.MembersOfIff | internal/index/index.go:162-181 | those members are exactly the ones at some key of the team that the filtered source contributed to, all of them for no filter, and their lowercased handles strictly ascend |
| IndexReads.Lookup | internal/index/index.go:233-244 | exactly the teams the handle is on, in any casing, with its record on each |
| IndexReads.LookupPlainly | internal/index/index.go:233-244 | a team is found if and only if some member of it has that handle up to case, and the record given is such a member |
| IndexReads.RecasingFindsTheSame | internal/index/index.go:233-244 | every recasing of a handle finds the same |
| IndexReads.Memberships | internal/index/index.go:122-146 | the nested loops produce the rows of the index in slug, handle, source and org order |
| IndexReads.FlattenElems | internal/index/index.go:122-146 | a row is in the flattened list if and only if its member exists with that handle, name and source, and its org is one of the member's for github-org and blank otherwise |
| IndexReads.FlattenAscends | internal/index/index.go:122-146 | the flattened rows strictly ascend by team, then lowercased handle, then source, then org |
| RoundTrip.FlattenRoundTrip | internal/index/index.go:69-146 | rebuilding any valid index from its flattened rows, in any order, gives it back exactly if and only if no member has orgs without github-org among its sources |
| RoundTrip.BuildFlattenBuild | internal/index/index.go:69-146 | for rows whose orgs come only from github-org, every permutation of the flattened index rebuilds it, handles and names included |
| People.Users | internal/index/index.go:190-229 | the aggregation over teams and any member order computes one user per handle with the casing of the least team, the name of the least team that has one, and sorted unions |
| People.UsersStrictlySorted | internal/index/index.go:183-189 | exactly one user per lowercased handle, in strictly ascending order |
| People.UserAgreesWithLookup | internal/index/index.go:190-244 | a user's teams are the sorted keys of looking its handle up, its sources and orgs the unions over those records, and its handle and name those of the least suitable team |
| Syncing.MergedRows | internal/syncer/syncer.go:198-228 | which rows take part in a sync depends on the sources and exclusions only, not on completion order |
| Floors.MergedPlainly | internal/syncer/syncer.go:198-230 | the merge has a developer on a team if and only if a last good row of a configured source says so and the handle is not excluded in any casing, and lists exactly the sources of such rows |
| Syncer.SnapshotFile.Save | internal/index/snapshot.go:13-53 | the snapshot file is replaced whole or not at all, and never without a configured path |
| Syncer.Append | internal/syncer/syncer.go:206 | Go's append, in place or reallocating, extends the gathered rows and writes no array it was not given or did not allocate |
| Syncer.DropExcluded | internal/syncer/syncer.go:219-228 | compacting in place leaves exactly the ordered subsequence of rows whose handle is not excluded |
| Syncer.Syncer.Statuses | internal/syncer/syncer.go:173-184 | every source's status exactly once, in any map order |
| Syncer.Syncer.FetchOne | internal/syncer/syncer.go:282-345 | an accepted fetch replaces the source's last good rows, a failed or floored one keeps them; the status records which, and the rows returned are always the resulting last good rows |
| Floors.TookIff | internal/syncer/syncer.go:305-328 | a fetch is accepted if and only if it succeeded, has at least as many rows as an enabled member floor, and as many different teams, listed, as an enabled team floor |
| Floors.CountsTeamsIff | internal/syncer/syncer.go:330-333 | the number of teams a status records is the length of the one duplicate-free list of the teams its rows carry |
| Floors.SourceAfterSync | internal/syncer/syncer.go:282-345 | a sync leaves the last good rows, their counts and time of a source as they were if its fetch failed or was below a floor, and replaces them otherwise; the status says which, with the counts and the floor, and always records the attempt and its warnings |
| Floors.OthersAfterSync | internal/syncer/syncer.go:189-217 | the rows and status of a source that is not configured are left alone |
| Floors.ReachableFloors | internal/syncer/syncer.go:305-345 | in every reachable state, a source that ever succeeded stands on rows its floors would let through, and its status counts exactly them |
| Syncer.Syncer.RestoreLastGood | internal/syncer/syncer.go:129-145 | each source named in a snapshot falls back on exactly its own rows of it, other sources keep theirs |
| Floors.RestoredPlainly | internal/syncer/syncer.go:129-145 | after restoring an index, a source the index has rows of stands on exactly those, any other on what it had; the index is served, disk and statuses stay |
| Syncer.Syncer.Seed | internal/syncer/syncer.go:151-163 | seeding serves and restores from a populated index and ignores a missing or team-less one |
| Syncer.Syncer.Refresh | internal/syncer/syncer.go:198-217 | however the goroutines' fetches and appends interleave, last good rows and statuses end up the same and the gathered rows are their concatenation in append order, in an array no last good list aliases |
| Syncer.Syncer.Publish | internal/syncer/syncer.go:238-257 | the publish guards: when the served index and the snapshot change, and to what |
| Floors.SyncPlainly | internal/syncer/syncer.go:230-257 | a sync serves its merge unless something is served and a source is starved or the merge is empty, and saves it if and only if a fetch was accepted, none is starved, the merge is not empty and the write succeeds |
| Syncer.Syncer.Sync | internal/syncer/syncer.go:189-260 | one sync over real, possibly shared arrays is the transition SyncNext for the order in which the sources appended |
| Syncer.Syncer.Start | internal/syncer/syncer.go:105-123 | starting is loading the snapshot over any seed and then one sync |
| SyncRuns.SyncRefines | internal/syncer/syncer.go:230-259 | what is served is either unchanged or the merge of all last good rows; a starved sync never reaches disk and is served only if nothing was; a disk write stores what is served |
| SyncRuns.StarvedFirstSyncIsServed | internal/syncer/syncer.go:232-251 | a new process serves a partial index as soon as one source has a usable row, however many are starved, and does not save it |
| SyncRuns.StarvedColdStart | internal/syncer/syncer.go:232-251 | a first sync with one source down |
| SyncRuns.ScheduleIrrelevant | internal/syncer/syncer.go:198-230 | the served provenance is the same for every completion order |
| SyncRuns.ReachableSound | internal/syncer/syncer.go:105-163 | in every reachable state over any number of crashes: a recorded success means the last good rows meet both floors and the status counts them, statuses carry their source's name, and the disk holds a valid index with a team |
| Syncing.StatusesSortedIff | internal/syncer/syncer.go:173-184 | every order in which the statuses can be listed is sorted by name if and only if there is at most one |
| SyncRuns.FloorRejectsEmptyIff | internal/syncer/syncer.go:305-328 | a floor keeps empty fetches out if and only if one of its bounds is enabled |
| SyncRuns.FlooredSourceKeepsRows | internal/syncer/syncer.go:305-345 | a source behind an enabled floor that has rows has rows after every later sync |
| SyncRuns.NeverStarvedAgain | internal/syncer/syncer.go:232-245 | no later sync is starved while each source has rows behind an enabled floor or is accepted by that sync, as one that never fails and has no floor is |
| SyncRuns.UnflooredSourceStarves | internal/syncer/syncer.go:305-345 | a source with both bounds disabled that succeeds without rows and then fails starves the sync, which leaves what is served and saved as it was |
| SyncRuns.PopulatedStays | internal/syncer/syncer.go:247-251 | in a process, a served index with a team is never replaced by one without |
| SyncRuns.SnapshotOverridesSeed | internal/syncer/syncer.go:105-123 | nor when the snapshot on disk overrides the seed: whatever a process starts from has a team |
| Scheduling.OrderInvisibleIff | internal/syncer/syncer.go:198-230 | the served index, casing and names included, is the same for every completion order if and only if no two sources that know a member disagree on its casing or name |
| Scheduling.CasingDependsOnOrder | internal/syncer/syncer.go:198-230 | two hygienic sources with one member in two spellings, served in either depending on the order |
| Restart.SameMerge | internal/syncer/syncer.go:198-230 | sources with the same contributions merge to the same provenance under any two completion orders |
| Restart.RestorePreserves | internal/syncer/syncer.go:129-145 | restoring a source from a snapshot that records its rows preserves what it contributes at every team and handle |
| Restart.FallbackIff | internal/syncer/syncer.go:125-145 | after a restart a source has rows to fall back on if and only if one of its rows had reached the snapshot |
| Restart.RestartIsInvisible | internal/syncer/syncer.go:105-163 | a syncer restarted from a snapshot of the last good rows serves the same provenance as one that never crashed, after every later sequence of the same fetch outcomes |
| Recovery.SavedSyncInStep | internal/syncer/syncer.go:253-257 | the first complete sync that reaches the disk makes disk, served index and last good rows agree |
| Recovery.TicksInStep | internal/syncer/syncer.go:189-260 | from then on every honest, persisted sync keeps them in agreement |
| Recovery.CrashAnywhere | internal/syncer/syncer.go:98-163 | a crash between any two such syncs, and a restart from the disk whatever was seeded before it, or from a seed alone that records as much, changes the provenance served by no later sync |
| Recovery.OutageServesStartIff | internal/syncer/syncer.go:105-163 | a restart in which every source fails, from the snapshot, a seed, or one over the other, serves exactly the index it started from, names and casing included, if and only if some source has nothing to fall back on or the seed adds no source to that index; the disk is left alone |
| Recovery.OutageServesSnapshot | internal/syncer/syncer.go:105-163 | so a snapshot without a seed, or a seed without a snapshot, is always served as it was |
| Replication.ReachableOk | cmd/coredevs/cluster.go:217-252 | the inductive invariant of every poller micro-step, with publishes of any generations landing anywhere in between |
| Replication.ReadersCoherent | cmd/coredevs/cluster.go:239-244 | at every instant each component a reader shows is verbatim from some published row, the index is never older than the keys nor the keys than the statuses, and between loads all three come from one row |
| Replication.SkipsSoundIff | cmd/coredevs/cluster.go:217-224 | for any published log, every skip of every run that publishes it is of a row the reader already shows, if and only if the last generation is not 0 and no row from the first that carries it on differs from the last row |
| Replication.RepeatedGenerationIsStale | internal/store/store.go:91-105 | a generation published twice for different rows leaves a reader on the first one |
| Replication.SkipSound | cmd/coredevs/cluster.go:217-245 | with non-zero generations that never repeat, in any order, a reader whose last generation is the published one shows the published row even in the middle of a load |
| Replication.ReadersMonotone | cmd/coredevs/cluster.go:217-252 | over every run no component of any reader goes back to an older row |
| Replication.OneLoadConvergesIff | cmd/coredevs/cluster.go:182-209 | once publishing has stopped, one load brings every idle reader of every run exactly up to the row, so all readers agree, under the same exact condition |
| Replication.FailedLoadsChangeNothing | cmd/coredevs/cluster.go:218-237 | over every run in which a reader's loads all fail, at either query or at parsing, with publishes and other readers in between, it shows what it showed and still asks for what it missed |
| Nodes.RowStore.Save | internal/store/store.go:78-89 | the saved row becomes the latest, or nothing changes; the table holds exactly the latest of all rows ever saved |
| Nodes.RowStore.Generation | internal/store/store.go:94-105 | the generation of the row saved last; having no row is an answer, a failed query an error |
| Nodes.RowStore.Load | internal/store/store.go:108-120 | the row saved last, with the same distinction |
| Nodes.Publisher.Publish | cmd/coredevs/cluster.go:92-128 | one row is added with the index served when publishing began, the cached keys after any walker activity, and every status after a whole sync that may run meanwhile; nothing is published before there is an index |
| Nodes.KeyReader.Replace | internal/keys/reader.go:29-36 | a reader's keys are swapped whole and it becomes warm |
| Nodes.Poller.Load | cmd/coredevs/cluster.go:217-252 | load over the real row, with any rows saved between its two queries and any of its failures, is exactly the load of the reader protocol, and a failed one changes nothing |
| Nodes.LoadIsItsSteps | cmd/coredevs/cluster.go:217-252 | the micro-steps of a load, whichever way it ends, add up to its effect: skip, fail, or everything swapped in under the generation read first |
| Coverage.MergeCovers | internal/syncer/syncer.go:219-230 | a merged index contains a source if and only if it is configured and has a usable row that is not excluded |
| Coverage.NothingMergedIff | internal/syncer/syncer.go:219-230 | a merge has no team if and only if no source has such a row |
| Coverage.SyncKeepsIff | internal/syncer/syncer.go:189-260 | a sync keeps serving a source, whatever any fetch returned, if and only if some source is starved, or nothing at all is merged, or the rows the source now stands on have one that gets through |
| Coverage.EmptySuccessKeepsIff | internal/syncer/syncer.go:305-345 | a served source whose fetch succeeds without rows while the others work stays served if and only if its floor is enabled or it is the only source; otherwise nothing is starved and the disk loses it too |
| Coverage.GithubOutageKeepsIff | internal/source/githuborg/source.go:41-63 | a total GitHub outage is such a fetch |
| Coverage.RestoredSource | internal/syncer/syncer.go:129-145 | restoring any valid index leaves a source rows of its own if and only if the index contains it, and one that gets through if and only if some member of it is not excluded now |
| Cluster.ReachableOk | cmd/coredevs/main.go:177-208 | in every reachable state, for any interleaving of crashes, reconfigurations, seeds, disk loads, syncs with any fetches, key cache activity, publishes in three steps and polls, every index served, saved, pending or published is valid, and last good rows are their sources' own |
| Cluster.NothingErasedIff | cmd/coredevs/cluster.go:130-153 | over a whole run, publishing at any instant keeps a source in every row once one has it, if and only if every sync, including the first after each restart, passes its check: it leaves alone an index that shows the source, or has a row of it that gets through, whenever the published or pending row has it |
| Cluster.NeverAtRiskIff | internal/syncer/syncer.go:189-260 | passing those checks is the same as never, at any instant, serving less of the source than the published or pending row has |
| Cluster.AtRiskIff | cmd/coredevs/cluster.go:92-128 | finishing the publish under way and publishing once more erases a source from the row if and only if it is at risk or erased already |
| Cluster.NothingErased | cmd/coredevs/cluster.go:130-153 | in a run whose syncs pass, once a published row contains a member from the source, every later row and the index of a running writer do |
| Cluster.NothingErasedAtReaders | cmd/coredevs/cluster.go:217-252 | and so does every reader index loaded from that row or a later one, at every instant, whatever the generations |
| Cluster.HonestSourcePasses | cmd/coredevs/main.go:192-199 | every sync of every run passes for a source whose accepted fetches have a row that gets through, which every configuration still lists and does not exclude altogether, and whose first fetch is accepted by a process that could read neither row nor snapshot, whatever the other sources do |
| Cluster.ExclusionIff | internal/syncer/syncer.go:219-228 | over a whole run, no process serves or is about to publish a handle its configuration excludes, if and only if no sync leaves alone an index that has one |
| Comeback.RecoveryShowsIff | cmd/coredevs/cluster.go:133-153 | exactly which sources the first row after any crash shows, from the new configuration, what was lost, what could be read and what the first fetches returned, empty or failed |
| Comeback.RecoveryExcludesIff | internal/syncer/syncer.go:219-245 | and exactly when that row is free of the handles the new configuration excludes |
| Comeback.RecoveryKeepsIff | cmd/coredevs/cluster.go:133-153 | for an honest source the new configuration still has: it is still in that row if and only if the writer could read the last row, or kept a snapshot it could read, or the source's first fetch is accepted |
| Comeback.GithubOutageErases | internal/source/githuborg/source.go:41-63 | a run in which a running writer, with nothing failed or starved, publishes a row without github-org |
| Comeback.UnreachableRowErases | cmd/coredevs/cluster.go:133-153 | a run in which a restart on a new disk that cannot reach the row publishes one without a source |
| Comeback.StarvedRestartIgnoresExclusion | internal/syncer/syncer.go:238-245 | a process on a new disk that reads a row with a member it excludes publishes it again when some source fails that the row has nothing of |
| Comeback.ExcludedHandleIsPublished | internal/syncer/syncer.go:238-245 | a run in which that happens |
| ClusterKeys.PublishedKeysIff | cmd/coredevs/cluster.go:98-109 | over any number of restarts, lost directories and failed disk operations, a row carries a handle's latest success as of when its keys were read if and only if it was remembered then: fetched since the last restart, or persisted and read back |
| ClusterKeys.ReaderKeysIff | cmd/coredevs/cluster.go:239-244 | and so, at any instant, does what a reader serves |
| ClusterKeys.KeysNotErased | cmd/coredevs/cluster.go:98-109 | whatever happened before, once a row has a handle's persisted keys every later row has its latest, as long as from then on its own file operations succeed, the directory survives and every prune wants it |
| ClusterKeys.KeysNotErasedAtReaders | cmd/coredevs/cluster.go:239-244 | and every reader that has loaded such a row or a later one |
| ClusterKeys.KeysRecoverIff | cmd/coredevs/main.go:194-208 | after any history, the first row after a restart, before the handle is fetched again, has its last good keys if and only if the directory survived, could be read, and had them persisted |
| ClusterKeys.KeysRecoverAtReadersIff | cmd/coredevs/cluster.go:239-244 | and so has a reader that loads it |
| ClusterKeys.NewDirectoryErasesKeys | cmd/coredevs/main.go:194-208 | on a new directory a row published before the first fetch has no keys at all |
| Keys.EntryFileName | internal/keys/cache.go:124-138 | a key names a file if and only if it is a plain login-shaped token |
| Keys.SafeIff | internal/keys/cache.go:124-138 | which tokens those are: non-empty, of small letters, digits, hyphens and underscores by their codes |
| Keys.Directory.Write | internal/keys/cache.go:56-101 | an entry reaches the disk whole or not at all, and only under a safe key |
| Keys.Directory.Remove | internal/keys/cache.go:105-120 | only the key's own file goes |
| Keys.Directory.Load | internal/keys/cache.go:17-51 | exactly the entries of the files with the extension, by stem, for any directory order |
| Keys.RestartPlainly | internal/keys/cache.go:17-51 | a restart reads back a key if and only if the directory survives and can be read and has its file, and then as filed |
| Keys.Cache.FetchOne | internal/keys/keys.go:333-374 | a failed fetch keeps the last good keys and their time, a success replaces and persists them |
| Keys.FetchPlainly | internal/keys/keys.go:333-374 | a fetch changes the entry and file of its own developer only, however spelt; a success replaces keys and time and clears the error, a failure keeps them and records it |
| Keys.Cache.Prune | internal/keys/keys.go:408-431 | memory and disk forget exactly the handles that left the desired set |
| Keys.WantedIff | internal/keys/keys.go:408-413 | a key is wanted if and only if some handle of the list agrees with it letter by letter up to case |
| Keys.PrunePlainly | internal/keys/keys.go:408-431 | entries and files of every listed handle, in any casing, stay as they were; exactly the other entries go, and of the files exactly those of dropped safe keys that can be removed |
| Keys.ListedKeepsKeys | internal/keys/keys.go:260-374 | over any passes that all list a developer, in any casing, the entry has the keys and time of the latest successful fetch |
| Keys.Cache.Seed | internal/keys/keys.go:154-167 | a non-empty readable directory becomes the cache and warms it |
| Keys.Cache.Snapshot | internal/keys/keys.go:207-217 | an exact copy of the entries, for any map order |
| Keys.MemoryAndDiskAgree | internal/keys/keys.go:154-167 | in every run of fetches, prunes and restarts in which the operations on its own file succeed, a safe key's entry carries its latest success since it was last absent, and a file exists exactly when there is one and agrees with it |
| Keys.LastGoodKept | internal/keys/keys.go:330-374 | without restarts every key, safe or not, keeps its latest success in memory, whatever disk operations fail |
| Keys.OnlyWhatWasFetched | internal/keys/keys.go:333-431 | whatever disk operations fail, restarts included, a file or an entry holds the keys and time of one successful fetch of its key |
| Keys.RememberedIff | internal/keys/keys.go:154-167 | in every run, whatever is lost or fails, memory has a handle's latest success if and only if it was fetched since the last restart or persisted and read back, and its file if and only if it is persisted |
| Keys.PersistedIff | internal/keys/keys.go:368-371 | persisted means that the last successful fetch of a safe key was written and that no prune or lost directory undid it since |
| Keys.SparedPersists | internal/keys/keys.go:368-371 | when no operation on a safe key's file fails and the directory survives, its latest success always is |
| Keys.RestartRecoversIff | internal/keys/cache.go:122-138 | a restart recovers a handle's last good keys, until it is fetched again, if and only if the directory survives and can be read and they were persisted |
| Keys.BotIsForgotten | internal/keys/cache.go:122-138 | the keys of a handle with brackets are in memory after a fetch and gone after a restart |
| Keys.FailedWriteIsForgotten | internal/keys/keys.go:368-371 | a handle whose write failed is in memory until a restart and then gone |
| Walker.WalkerState.WalkOnce | internal/keys/keys.go:260-318 | one iteration of the walk is one pass of the timing model with the pace it publishes, and does to entries and files exactly its prune and its fetches, handle by handle, disk failures included |
| Walker.EmptyPass | internal/keys/keys.go:267-275 | with no handles a pass is a minute of sleep that warms the cache |
| Walker.RateCeiling | internal/keys/keys.go:50-55 | over every run, across passes and changing handle sets, k consecutive fetches span at least (k-1) minimum delays |
| Walker.PassSleep | internal/keys/keys.go:260-328 | a steady pass over n handles sleeps, by the clock, more than the refresh interval minus n and at most the interval, or exactly n minimum delays when those are longer; a warming pass sleeps n minimum delays |
| Walker.Freshness | internal/keys/keys.go:257-318 | with a stable set and fetches bounded by F, the handle fetched as the j-th of one pass is fetched again in the next within max(interval, n minimum delays) + nF |
| Markdown.HeaderCellOfRow | internal/source/protocolguild/protocolguild.go:19-24 | a header row gives back the bold text it was rendered from |
| Markdown.CountSuffixIff | internal/source/protocolguild/protocolguild.go:26-28 | a rendered count preceded by text matches the anchored count pattern if and only if that text is blank |
| Markdown.SectionNameOfCounted | internal/source/protocolguild/protocolguild.go:211-216 | for every name, even one that ends in a count, appending a count and taking the section name gives the trimmed name |
| Markdown.MemberRowOfLink | internal/source/protocolguild/protocolguild.go:218-241 | parsing a rendered member row, with or without a trailing slash, gives the trimmed name and the login |
| Markdown.OneProfile | internal/source/protocolguild/protocolguild.go:230-238 | the profile pattern matches a URL at one place at most, so the last match is the only one |
| Patterns.Classes | internal/source/protocolguild/protocolguild.go:19-37 | the character classes of the patterns and of trimming, by code point |
| Patterns.MemberWordIff | internal/source/protocolguild/protocolguild.go:28 | the word of a count is a small or capital m, then "ember", then an optional s |
| Patterns.TrimIs | internal/source/protocolguild/protocolguild.go:168 | trimming takes off all blanks at both ends and nothing else |
| Patterns.LinesAre | internal/source/protocolguild/protocolguild.go:167 | splitting cuts at every newline: joined again the lines are the document |
| Patterns.HeaderCellIff | internal/source/protocolguild/protocolguild.go:19-24 | the header matcher gives a cell if and only if the line splits as the header pattern says, with that bold text |
| Patterns.CountSuffixPatternIff | internal/source/protocolguild/protocolguild.go:26-28 | the count matcher accepts if and only if the text splits as the count pattern says |
| Patterns.StripCountIs | internal/source/protocolguild/protocolguild.go:211-216 | what is cut is the longest matching suffix, or nothing |
| Patterns.MemberLinkIff | internal/source/protocolguild/protocolguild.go:30-32 | the link matcher gives a text and target if and only if the line splits as the link pattern says |
| Patterns.ProfileInIff | internal/source/protocolguild/protocolguild.go:34-37 | the profile matcher gives a login if and only if the URL ends as the profile pattern says, whatever comes before |
| Patterns.MemberRowIff | internal/source/protocolguild/protocolguild.go:218-241 | a member row is a link whose target ends in a profile; its member has the trimmed link text as name and the login as handle |
| ProtocolGuild.Parse | internal/source/protocolguild/protocolguild.go:161-209 | the stateful loop emits, in order, exactly the member rows whose nearest governing line is a mapped header, and sees every header |
| ProtocolGuild.GovernorIsNearest | internal/source/protocolguild/protocolguild.go:152-156 | the governing line is the last heading or header before a row |
| ProtocolGuild.EmittedIff | internal/source/protocolguild/protocolguild.go:152-160 | a membership is emitted if and only if some member row carries it under a header mapped to its team |
| Documents.ClassifyPlainly | internal/source/protocolguild/protocolguild.go:167-192 | what each line is, from its text: a heading, a header under its section name, or a member under its trimmed name and login |
| Documents.ParsedIff | internal/source/protocolguild/protocolguild.go:161-209 | a document has a membership if and only if some member line of its text has that login, trimmed name and, as the nearest heading or header above it, a header of a section mapped to that team; source and org are the literal name and blank |
| Documents.SeenIff | internal/source/protocolguild/protocolguild.go:161-180 | a section is seen if and only if some header line of the text has that name |
| Documents.RenderedRowIsParsed | internal/source/protocolguild/protocolguild.go:161-209 | a rendered header of a mapped section, lines that are neither headings nor headers, and a rendered member row give the membership of that login and name on that team, whatever else the document holds |
| Documents.UnmappedRowIsDropped | internal/source/protocolguild/protocolguild.go:152-184 | a heading, or a header of an unmapped section, in place of that header leaves the row out |
| ProtocolGuild.ParseComposes | internal/source/protocolguild/protocolguild.go:161-209 | joining two documents with a heading line concatenates their memberships and unites their sections |
| ProtocolGuild.MissingSections | internal/source/protocolguild/protocolguild.go:138-150 | the configured headers the document does not carry, in their unique ascending order |
| ProtocolGuild.Fetch | internal/source/protocolguild/protocolguild.go:113-133 | the fetch fails exactly when an enabled budget is exceeded, and warnings list the missing headers either way |
| ProtocolGuild.ParsedFromSource | internal/source/protocolguild/protocolguild.go:195-200 | Protocol Guild rows carry the source's own name and no org |
| GithubOrg.PublicMembers | internal/source/githuborg/githuborg.go:47-68 | pagination returns every non-blank login in order with exactly one request per page up to the first short one, or stops at the first failing page |
| GithubOrg.PageIs | internal/source/githuborg/githuborg.go:45-68 | a page holds the hundred logins from its place in the listing on, or as many as there are |
| GithubOrg.Fetch | internal/source/githuborg/source.go:38-63 | orgs in sorted order, one failing org costs only its own rows |
| GithubOrg.FetchedIff | internal/source/githuborg/source.go:41-60 | a row is fetched if and only if its org is wired to its team, lists its login and answers every page |
| GithubOrg.FetchedFromSource | internal/source/githuborg/source.go:52-57 | github-org rows carry the source's own name |
| GithubOrg.TotalOutageIsEmptySuccess | internal/source/githuborg/source.go:41-48 | when every org fails the fetch succeeds without rows |
| GithubOrg.FetchManual | internal/source/manual/manual.go:34-52 | the manual source lists every configured non-blank handle, team by team, and never fails |
| GithubOrg.ManualIff | internal/source/manual/manual.go:34-52 | it has a row if and only if the handle is configured for the team and not blank, with the literal source name, no org and no name |
| GithubOrg.ManualFromSource | internal/source/manual/manual.go:43-47 | manual rows carry the source's own name and no org |

## Left out

- Refresh: a goroutine's fetchOne is one step and its append another, and steps of different sources interleave freely; interleavings inside fetchOne are not modelled, because it writes only its own source's entries. The same holds of Sync, which calls it.
- Build: members and teams are values updated in maps rather than shared pointers, so aliasing between two indexes is not modelled; `GeneratedAt` is left out and not part of index equality.
- Members: requires a valid index, which every built, restored or published one is; a snapshot file edited by hand is not covered. The same holds of Memberships, Users, Seed and Start.
- Parse: the four regular expressions are hand-written matchers over characters, proved equal to what the patterns describe (Patterns.dfy), not run by a model of a regular expression engine; ToLower folds ASCII only, which covers GitHub logins.
- Sync: fetchOne is one step, as in Refresh; times are inputs and 0 means never; error texts are structured values rather than formatted strings.
- Publish: what the walker and a sync do meanwhile happens before the keys and statuses are copied, as each is copied under its lock; encoding and decoding a snapshot is the identity, and a decoding failure is an input of Load. In the cluster model the status list of a row is an input.
- MemoryAndDiskAgree: assumes that the directory survives and operations on the key's own file succeed; RememberedIff says exactly what holds otherwise, for any handle that has a latest success. Fetches of one handle do not overlap.
- WalkOnce: timers fire exactly; lateness counts as part of the preceding fetch. The minimum delay is given in nanoseconds rather than computed from a floating-point rate.
- NothingErased: assumes of each sync the check that NothingErasedIff shows to be necessary as well as sufficient.
- HTTP handlers, metrics, the web page and the YAML and JSON writers (internal/api): plumbing over the views modelled here.
- HTTP requests, status codes and rate-limit hints: a fetch, or a page of one, is an input.
- Configuration loading, command-line flags, deployment manifests, logging, contexts and shutdown.
- parseKeys and the summary counts of the key cache's Status.
- Postgres itself: the store is one row that is overwritten or not.
