# Verified model of the policy-report server

The server keeps Kubernetes policy reports behind a REST interface. `polrStore`
serves namespaced reports and `cpolrStore` cluster-wide ones; both encode reports
as JSON and put them into one string-keyed database, here the in-memory one, and
both broadcast watch events. A small utility builds the histogram buckets around
a scrape timeout. This project models that logic in Dafny and proves properties of
it.

## How the model is laid out

| file | contents |
|---|---|
| `wrappers.dfy` | optional values, weighted sums over sequences |
| `keys.dfy` | database keys, their injectivity, prefixes and disjointness |
| `decimal.dfy` | resource versions: 64-bit integers as decimal strings |
| `codec.dfy` | reports, and what encoding and decoding keep of them |
| `inmemory.dfy` | the database as a class whose methods change its map in place |
| `listing.dfy` | listing through one reused variable with a shared label map; selection |
| `handlers.dfy` | what each request does: an effect and a response, as functions of the database |
| `outcomes.dfy` | what each request comes to, case by case, without the functions of `handlers.dfy` |
| `calls.dfy` | what one call leaves for the next: reading back, undoing |
| `store.dfy` | `polrStore` as a class, proved against `handlers.dfy` |
| `abstraction.dfy` | the database as a map from namespace and name to report; refinement |
| `runs.dfy` | sequential runs: version counting, watch replay, dry-run erasure |
| `collection.dfy` | exact listing, and collection delete with any selector and validator |
| `machine.dfy` | the store under concurrent requests, one atomic step per database call or broadcast |
| `accounting.dfy` | conservation of events, life of keys, version bounds, over all interleavings |
| `solo.dfy` | a request that is left alone does what its sequential handler says |
| `alone.dfy` | collection delete left alone in any state that interleaving can reach |
| `watching.dfy` | on which schedules the watch log tells what is stored, key by key and as a whole |
| `races.dfy` | when an update writes the next version, when versions count, when a delete removes what it read; schedules that go wrong |
| `cluster.dfy` | `cpolrStore` as a class, with what its handlers do differently |
| `clusterruns.dfy` | runs of both stores: isolation, and what becomes of cluster entries |
| `clusteroutcomes.dfy` | what each cluster request comes to, case by case |
| `buckets.dfy` | histogram buckets over slices with spare capacity |

The store is described three times, and the three descriptions are connected: the
methods of `Store.PolrStore` and `Cluster.CpolrStore` are proved to have the effects
of module `Handlers`, which states once what the two have in common,
and the atomic steps of module `Machine`, taken in a row, are proved to have them
too (`Solo.LeftAloneIsSequential`). What those effects are is written out once more,
in terms of what a request is given and what is stored, in `outcomes.dfy` and
`clusteroutcomes.dfy`, and proved equal for every request.

Inputs from outside are parameters: UUIDs, clock readings, validator verdicts, the
object transformer of an update, the label selector (any predicate on label maps),
the order in which Go walks over a map, and the spare capacity of a grown slice.

Encoded text is a record of optional fields. Encoding drops empty optional fields
and writes times in whole seconds; decoding overwrites the fields that are present
and merges label maps. Encoding followed by decoding is proved to be the identity
up to `Codec.Norm`. The `body` of a report stands for everything else it says.

Namespaces are path segments (no slash) where a statement speaks of namespaces and
names rather than of keys; `Keys.SlashesCollide` shows why. Names are non-empty
where a statement is about listing. Statements about single keys need neither.

## What turned out false, and exactly when it holds

* **Selecting by label.** All listed items share one label map, so a selector
  returns every report or none (`Listing.AllOrNothing`), and which of the two may
  depend on the order in which Go walks over its map. Every walk returns what was
  asked for if and only if each report's own labels and all label maps laid over each
  other, in any order, get one and the same verdict and, should that be no, no report
  is unlabelled (`Listing.PromiseKeptOnEveryWalk`); for label maps that agree on what
  they share this is a condition on their union (`Listing.PromiseKeptWhenLabelsAgree`).
  Reports labelled `a=1` and `a=2` are a counterexample, with both walks
  (`Collection.PromiseBroken`).
* **Watch replay.** Run sequentially, the folded log is the store plus the phantoms
  that forced updates of absent reports announce
  (`Runs.ReplayIsStorePlusPhantoms`); the two are equal if and only if no phantom is
  left, and a request breaks the agreement if and only if it is such an update
  (`Runs.AgreementBreaksExactly`, `Runs.ForcingBreaksAgreement`). When requests
  interleave, the log may also end on a stale report (`Races.LogCanEndStale`, and
  `Races.ALogEndsStale` from the start). Exactly when, on any schedule: take the
  request that spoke last of a key and the one that acted last on it. Once the
  former has no more to say, the log tells what is stored if and only if what the
  former last achieved there is what remains of what the latter achieved
  (`Watching.SpeakerDecides`; for the folded log and the whole store
  `Watching.ReplayDecides` and `Watching.ReplayIsStoreExactly`). Where both are the
  same request (`Watching.LastWordIsTrue`), and so on every schedule on which nothing
  is done to a key while news of it is due, the two agree if and only if no failed
  forced update came last (`Watching.PoliteReplay`, `Watching.PoliteReplayIsStore`).
* **Growing versions.** The database ignores the revision of an update. An update
  writes the version after the one that it read; that is the version after the one
  that it finds if and only if the two are the same, and, short of overflow, the
  version goes back if and only if it finds more than one above what it read
  (`Races.UpdateIsNextExactly`; `Races.AVersionGoesBack` is a schedule from the
  start). Over a whole schedule versions count if and only if no update writes over
  another version than it read (`Races.VersionsCountExactly`). In sequential runs
  they do (`Runs.VersionsCount`), and on every schedule they stay bounded
  (`Accounting.VersionsAreBounded`).
* **Deleting what was validated.** The database ignores the revision of a delete
  too. A delete removes whatever is there and announces the report that it read and
  validated; the two are the same report if and only if it finds the one that it read
  (`Races.DeleteIsOfWhatItReadExactly`). `Races.DeleteCanTakeAnother` removes a
  report that its validator refuses.
* **Cluster create.** It calls the database's update, so on the in-memory database
  the cluster store can never come to hold a report (`ClusterRuns.ClusterStaysEmpty`).
  Entries that are there at first only disappear or fall back to version 1
  (`ClusterRuns.ClusterEntriesDescend`).
* **Bucket comment.** The comment in `pkg/utils/monitoring.go:20` starts the extra
  buckets at the timeout plus half the distance; the code starts from the largest
  default bucket. The model follows the code.

## Model

| member | source | states |
|---|---|---|
| Keys.KeyInjective | pkg/api/polr.go:286-288 | two reports have the same key if and only if version, namespace and name are the same, for slash-free namespaces and any names |
| Keys.ListPrefixExact | pkg/api/polr.go:290-292 | a listing prefix covers a key if and only if the key is of its version and namespace |
| Keys.SlashesCollide | pkg/api/polr.go:286-288 | with slashes in a namespace two different reports share a key |
| Keys.ClusterDisjoint | pkg/api/cpolr.go:271-277 | namespaced and cluster keys never coincide and neither listing prefix covers the other's keys, for all versions |
| Keys.RootExact | pkg/api/polr.go:286-292 | a namespaced key lies under the root of its own version only, a cluster key under none |
| Keys.ClusterKeyInjective | pkg/api/cpolr.go:271-273 | two cluster reports have the same key if and only if version and name are the same |
| Keys.ClusterPrefixExact | pkg/api/cpolr.go:271-277 | the cluster listing prefix covers a cluster key if and only if it is of its version |
| Keys.OtherVersionsDiffer | pkg/api/v1beta1/polr.go:280-286 | `v1alpha1` and `v1beta1` are versions other than that of `pkg/api` |
| Keys.OtherVersionsDisjoint | pkg/api/v1alpha1/polr.go:280-286 | keys of any other API version, namespaced or cluster, are never keys of this one, nor does either version list the other's |
| Keys.KeysArePaths | pkg/api/polr.go:286-292 | the four kinds of key and prefix, as they are printed |
| Decimal.FormatIsNumeral | pkg/api/polr.go:371 | a printed version is its decimal numeral, without leading zeros, after a minus if negative |
| Decimal.ParseIsReading | pkg/api/polr.go:366 | a text parses if and only if it is digits, possibly after a sign, that stand for a number of 64 bits, which it yields |
| Decimal.SuccessorInWords | pkg/api/polr.go:371 | the next version is one more, or from the largest 64-bit integer the smallest |
| Decimal.ParseFormatInt | pkg/api/polr.go:366-380 | printing then parsing is the identity on all 64-bit integers, the minimum included, and out-of-range values do not parse |
| Decimal.SuccessorOfWrapped | pkg/api/polr.go:371 | counting up through wrapped values is counting up and wrapping once; the successor of the largest is the smallest |
| Decimal.VersionTextReads | pkg/api/polr.go:366-371 | the text of the n-th version reads as n if and only if n fits in 64 bits |
| Codec.RoundTrip | pkg/api/polr.go:316-352 | encoding then decoding into a zero report yields the normal form, which loses nothing the second time |
| Codec.EncodingSurvives | pkg/api/polr.go:316-352 | what decoding brings back, field by field: all but empty labels and fractions of a second |
| Codec.EncodingOmits | pkg/api/polr.go:352-357 | the text has no empty string, no empty labels and no zero time, and everything else |
| Codec.DecodingFills | pkg/api/polr.go:335-341 | decoding into a used variable takes what the text has and leaves the rest, label by label, but resets the time |
| InMemory.InMemoryDb.List | pkg/storage/inmemory/client.go:32-47 | the values of exactly the keys with the prefix, each once, in the order of some walk |
| InMemory.InMemoryDb.Get | pkg/storage/inmemory/client.go:49-61 | the value under the key, or none exactly when it is absent |
| InMemory.InMemoryDb.Put | pkg/storage/inmemory/client.go:63-76 | writes the one entry whether or not it was there, and no other |
| InMemory.InMemoryDb.Create | pkg/storage/inmemory/client.go:78-95 | fails and changes nothing exactly when the key is present, otherwise adds that one entry |
| InMemory.InMemoryDb.Update | pkg/storage/inmemory/client.go:97-114 | fails and changes nothing exactly when the key is absent, otherwise replaces that one entry whatever the revision |
| InMemory.InMemoryDb.Delete | pkg/storage/inmemory/client.go:116-129 | fails exactly when the key is absent, otherwise removes that one entry whatever the revision |
| Listing.FillStruct | pkg/api/polr.go:335-341 | decoding into a used struct overwrites present fields and merges labels into the map that earlier copies share |
| Listing.DecodeAll | pkg/api/polr.go:331-342 | the loop over one reused variable, with label maps on the heap, yields the specified items, and fails exactly when a value does not decode |
| Listing.SelectItems | pkg/api/polr.go:71-83 | the order-preserving filter if every item is labelled, the whole list if one is not |
| Listing.LabelsAreShared | pkg/api/polr.go:335-341 | from the first labelled value on every item shows the merge of all label maps listed; before it, none |
| Listing.CarriesOver | pkg/api/polr.go:335-341 | an item shows, in each string field, what the last value up to it said there, even where its own says nothing |
| Listing.CarriesNothing | pkg/api/polr.go:335-341 | a field that no value up to an item has is empty in it |
| Listing.TimesAreOwn | pkg/api/polr.go:335-341 | the creation time of an item is its own or zero |
| Listing.LastLabelWins | pkg/api/polr.go:335-341 | of the values that have a label, the last one gives the value that every labelled item shows |
| Listing.MergedLabelsAreStored | pkg/api/polr.go:335-341 | a label that is shown is one that some value has |
| Listing.AllOrNothing | pkg/api/polr.go:56-84 | any selector returns all items or none, and which of the two |
| Listing.PromiseKeptOnEveryWalk | pkg/api/polr.go:67-83 | whatever the order of Go's walk, a listing returns exactly the reports whose own labels match, if and only if one verdict is that of every report by itself and of all label maps laid over each other in any order, and, if it is no, no report is unlabelled |
| Listing.PromiseKeptWhenLabelsAgree | pkg/api/polr.go:67-83 | where the stored label maps agree on shared labels, if and only if every own verdict is that of their union and, if it is no, no report is unlabelled |
| Collection.PromiseBroken | pkg/api/polr.go:67-83 | after two creates from the start, a selector that admits one report of the two lists neither on one walk and both on the other |
| Store.PolrStore.GetPolr | pkg/api/polr.go:307-321 | a fresh copy of the stored report, or why there is none |
| Store.PolrStore.ListPolr | pkg/api/polr.go:323-343 | the items that listing through leftovers yields, for the walk that the database took |
| Store.PolrStore.CreatePolr | pkg/api/polr.go:345-357 | stamps the caller's report with version 1, and stores it exactly when its key was absent |
| Store.PolrStore.UpdatePolr | pkg/api/polr.go:359-382 | writes the version that follows the stored one, or 1 when forced, exactly when the key is present; otherwise leaves the store alone |
| Store.PolrStore.DeletePolr | pkg/api/polr.go:384-392 | removes exactly the report's entry, and fails exactly on an unparseable version or an absent key |
| Store.PolrStore.Get | pkg/api/polr.go:86-93 | the response that the specification gives for the current database |
| Store.PolrStore.List | pkg/api/polr.go:56-84 | the response that the specification gives for the walk that was taken |
| Store.PolrStore.Create | pkg/api/polr.go:95-131 | the specified effect on database and log, and the specified response, on every branch |
| Store.PolrStore.Update | pkg/api/polr.go:133-187 | the same for forced and plain updates, including dry runs, failing stores and transformers that yield nothing |
| Store.PolrStore.UpdateForced | pkg/api/polr.go:137-144 | a forced update writes only over a present entry, announces the report in any case, and answers success |
| Store.PolrStore.Delete | pkg/api/polr.go:189-220 | the same for a delete, whose event is sent exactly when an entry went |
| Store.PolrStore.DeleteEach | pkg/api/polr.go:239-246 | the loop deletes what the specification says and stops where it says, with two events for each report |
| Store.PolrStore.DeleteCollection | pkg/api/polr.go:222-249 | the same for a collection delete, for the walk that was taken |
| Abstraction.AbsAt | pkg/api/polr.go:286-321 | looking up a key is looking up a namespace and a name in the abstract map |
| Abstraction.AbsPut | pkg/api/polr.go:345-382 | writing a report under its key is writing its normal form under its identity |
| Abstraction.AbsDrop | pkg/api/polr.go:384-392 | removing keys is removing identities |
| Abstraction.HandleIsHonest | pkg/api/polr.go:95-249 | on a sound database every request writes only where and with the version its kind of write allows, and drops only what is stored, once |
| Abstraction.HonestKeepsSound | pkg/api/polr.go:345-392 | such effects keep keys in agreement with the reports under them, and versions parseable |
| Abstraction.Refines | pkg/api/polr.go:86-220 | Get, Create, Update and Delete simulate an abstract map from namespace and name to report, with equal responses |
| Outcomes.DryRunIsAll | pkg/api/polr.go:96 | dry-run is the word "All" among the options |
| Outcomes.GetComesTo | pkg/api/polr.go:86-93 | the stored report or not-found, and no change |
| Outcomes.CreateComesTo | pkg/api/polr.go:95-131 | the response and the change of every create: strict validation, kind, dry-run with nothing stamped, taken key, and else the report as submitted, placed and stamped, stored, announced and read back |
| Outcomes.CreateChangesExactly | pkg/api/polr.go:95-131 | a create changes anything if and only if it is valid or not strict, a report, not a dry run, and its key is free |
| Outcomes.UpdateComesTo | pkg/api/polr.go:145-187 | the response and the change of every plain update: absent, not transformed, strict validation, kind, dry-run, absent target, and else what the transformer made of the stored report with the version after the one under its own key |
| Outcomes.ForcedComesTo | pkg/api/polr.go:137-144 | for both resources: the transformer sees the stored report, or nothing if there is none that can be read; its report gets version 1, is announced and answered, and stored if and only if its key is present |
| Outcomes.ForcedRequestComesTo | pkg/api/polr.go:137-144 | the same of the namespaced request, whatever validation and dry-run say |
| Outcomes.DeleteComesTo | pkg/api/polr.go:189-220 | for both resources: absent, rejected whether or not a dry run, dry run, and else the entry gone and announced once |
| Outcomes.DeleteRequestComesTo | pkg/api/polr.go:189-220 | the same of the namespaced request |
| Outcomes.UnreadableComesTo | pkg/api/polr.go:307-321 | a text that does not decode is not found by get and delete, fails a plain update with its own error, and is not shown to a forced one |
| Outcomes.UnparseableComesTo | pkg/api/polr.go:366-392 | a stored version that does not parse stops delete and update of its report, with nothing changed |
| Outcomes.ListComesTo | pkg/api/polr.go:56-84 | a listing fails if and only if some value in the namespace does not decode, and else answers all items or none, changing nothing |
| Outcomes.ListCarriesOver | pkg/api/polr.go:335-341 | the listing shows bodies and UIDs of earlier values in items whose own say nothing |
| Outcomes.DryCollectionComesTo | pkg/api/polr.go:222-249 | a dry-run collection delete answers as the listing does and changes nothing, and so when the listing fails |
| Outcomes.DeletionIsAnnounced | pkg/api/polr.go:206-245 | the events of a deletion in order: one for each report, or two in a collection |
| Calls.CreateThenGet | pkg/api/polr.go:95-131 | a create is refused and changes nothing exactly when its key is taken; otherwise Get finds the submitted report, namespace defaulted, stamped as version 1 |
| Calls.CreateThenDelete | pkg/api/polr.go:189-220 | deleting what was just created restores the database exactly and adds one event of each kind |
| Calls.UpdateThenGet | pkg/api/polr.go:145-187 | an accepted update carries the version after the stored one, Get finds what it answered, and no other entry changes |
| Calls.DeleteThenGet | pkg/api/polr.go:189-220 | after an accepted delete Get answers not-found, no other entry changes, and the stored report is what is announced |
| Runs.RunsStaySound | pkg/api/polr.go:345-392 | keys agree with reports and versions parse in every state of every sequential run |
| Runs.VersionsCount | pkg/api/polr.go:345-382 | a stored version is 1 plus the updates since the last create or forced update, in 64-bit arithmetic |
| Runs.VersionsCountPlainly | pkg/api/polr.go:366-380 | as a number it is that count plus 1 if and only if the count is below the largest 64-bit integer |
| Runs.ReplayIsStorePlusPhantoms | pkg/api/polr.go:95-249 | in every sequential run the folded log is the decoded store plus the phantoms, despite doubled Deleted events |
| Runs.ReplayIsStore | pkg/api/polr.go:95-249 | the folded log is the decoded store if and only if no phantom is left |
| Runs.AgreementBreaksExactly | pkg/api/polr.go:137-144 | the next request breaks the agreement if and only if it is a forced update whose report is not stored |
| Runs.ForcingBreaksAgreement | pkg/api/polr.go:137-144 | for a store that has served nothing, a forced update of any report leaves the log telling of a report that is not stored |
| Runs.GetAnswersTheLog | pkg/api/polr.go:86-93 | Get answers the report that the log last announced, or not-found if it was deleted or is a phantom |
| Runs.DryRunsErase | pkg/api/polr.go:95-247 | removing dry-run requests, forced updates apart, changes no state, no event and no other response |
| Collection.RunsStayOrderly | pkg/api/polr.go:345-392 | runs of requests with path-segment namespaces and non-empty names keep the database such that listing is exact |
| Collection.ItemIsExact | pkg/api/polr.go:323-343 | for every walk, item i shows the namespace, name, version and time of its own report, and its UID unless that is empty |
| Collection.ListingIsExact | pkg/api/polr.go:323-343 | a listing has exactly one item for each stored report of the namespace |
| Collection.DefaultListsEverything | pkg/api/polr.go:56-60 | without a selector a listing returns every item |
| Collection.CollectionOutcome | pkg/api/polr.go:222-249 | on any database whose listings are exact, exactly the reports before the first rejected one are deleted, and it fails exactly when one is rejected; nothing happens if the selector's verdict is no |
| Collection.CollectionDeletes | pkg/api/polr.go:238-247 | the entries of those reports are gone and no others, and the log grows by two Deleted events for each |
| Collection.CollectionEmpties | pkg/api/polr.go:222-249 | from any state a sequential run can reach, with default selector and accepting validation, it succeeds, empties the namespace and leaves the rest as it was |
| Alone.ReachableIsOrderly | pkg/api/polr.go:345-392 | under any interleaving of requests with path-segment namespaces and non-empty names the database stays such that every listing is exact |
| Alone.CollectionAlone | pkg/api/polr.go:222-249 | from any state that interleaving can reach, the steps of a collection delete in a row remove exactly the entries before the first rejected one, announce each twice, leave every other entry and request alone, and end in failure exactly when one is rejected |
| Alone.CollectionAloneEmpties | pkg/api/polr.go:222-249 | from any such state, with default selector and accepting validation, it ends in success with the namespace empty and the rest as it was |
| Machine.ReachableIsSound | pkg/api/polr.go:345-392 | under any interleaving each key agrees with the report decoded from its value, its version parses, and so does every version about to be written |
| Machine.NothingIsUnreadable | pkg/api/polr.go:307-392 | under any interleaving a fetch fails only on an absent key, a delete is turned down only for that, by validation or as a dry run, an update can follow every version it finds, and every listing succeeds |
| Accounting.EventsAreConserved | pkg/api/polr.go:114-245 | under any interleaving, for every property of a report's key and encoded text, events sent plus events owed equal what the database calls achieved; deletions count twice for collections |
| Accounting.KeysAndTextsBalance | pkg/api/polr.go:114-245 | in particular for each key, and for each text: an Added event says what a database call wrote, a Deleted event what the request meant to delete |
| Accounting.QuietLogIsComplete | pkg/api/polr.go:114-245 | once all requests are done the log has exactly those events, for every such property |
| Accounting.KeysLiveInTurn | pkg/storage/inmemory/client.go:78-129 | under any interleaving the database holds, key by key, what its call history leaves; creates find keys dead, updates and deletes alive |
| Accounting.GetAnswersTheLastWrite | pkg/api/polr.go:307-321 | under any interleaving Get answers the last successful write since the last successful delete, or not-found |
| Accounting.CreatesAndDeletesAlternate | pkg/storage/inmemory/client.go:78-129 | creates and deletes of a key strictly alternate, a create first, and the last decides whether the key is there |
| Accounting.LiveKeysAreCounted | pkg/storage/inmemory/client.go:78-129 | the number of stored reports is the number of successful creates less that of successful deletes |
| Accounting.VersionsAreBounded | pkg/api/polr.go:359-382 | under any interleaving, short of overflow, a version is at least 1 and at most 1 plus the updates written to its key |
| Solo.FinishIsHandle | pkg/api/polr.go:95-249 | the atomic steps of a request taken in a row have the effect and response of its handler |
| Solo.LeftAloneIsSequential | pkg/api/polr.go:95-249 | from any reachable state, moves of one new request alone lead to the state and response of its handler |
| Watching.BooksAreRight | pkg/api/polr.go:114-245 | under any interleaving, per key, whoever owes news owes that of what it last achieved, the log tells what the last speaker last achieved once it has no more to say, and the database holds what remains of what the last doer achieved |
| Watching.SpeakerDecides | pkg/api/polr.go:114-245 | on any schedule, once the last speaker of a key has no more to say, the log tells what is stored if and only if what it last achieved there is what remains of what the last doer achieved |
| Watching.LastWordIsTrue | pkg/api/polr.go:114-245 | where the two are the same request, if and only if no failed forced update came last |
| Watching.PoliteLogIsTrue | pkg/api/polr.go:114-245 | on schedules that leave a key alone while news of it is due, the same whenever no news is due |
| Watching.AloneIsPolite | pkg/api/polr.go:95-249 | letting one request take its steps while no other owes news keeps a schedule such |
| Watching.ReplayIsTold | pkg/api/polr.go:114-245 | folding the log is remembering what it last told of each report |
| Watching.ReplayDecides | pkg/api/polr.go:95-249 | on any schedule the folded log and the abstract store agree on a report under that same condition |
| Watching.ReplayIsStoreExactly | pkg/api/polr.go:95-249 | on any schedule with nothing left to announce, the folded log is the decoded store if and only if that condition holds of every key |
| Watching.PoliteReplay | pkg/api/polr.go:95-249 | on such schedules the folded log and the abstract store agree on a report if and only if no failed forced update came last |
| Watching.PoliteReplayIsStore | pkg/api/polr.go:95-249 | on schedules that do so for every key, with nothing left to announce, the folded log is the decoded store if and only if no key ends in a failed forced update |
| Races.UpdateIsNextExactly | pkg/api/polr.go:359-382 | whatever others do between its read and its write, an update writes the version after the one it read; it is the next one if and only if it finds what it read, and, short of overflow, lower if and only if it finds more than one above; it changes nothing if the report is gone |
| Races.VersionsCountExactly | pkg/storage/inmemory/client.go:97-114 | along a schedule all versions are 1 plus the updates since the last create or forced update if and only if no update writes over another version than it read |
| Races.VersionsCanGoBack | pkg/storage/inmemory/client.go:97-114 | any reachable state that stores a report whose version is at least two below the largest 64-bit integer continues to one where a plain update lowers its version |
| Races.AVersionGoesBack | pkg/storage/inmemory/client.go:97-114 | such a schedule for a server that has just started |
| Races.LogCanEndStale | pkg/api/polr.go:178-184 | any reachable state that stores a report whose version is at least two below the largest 64-bit integer continues to one where the folded log is one version behind the store and the two requests are done |
| Races.ALogEndsStale | pkg/api/polr.go:178-184 | such a schedule for a server that has just started, with no news due at its end |
| Races.DeleteIsOfWhatItReadExactly | pkg/storage/inmemory/client.go:116-129 | whatever others do between the read and the removal, a delete announces the report it read and validated and removes the entry it finds; they are the same report if and only if it finds what it read; it changes nothing if the report is gone |
| Races.DeleteCanTakeAnother | pkg/storage/inmemory/client.go:116-129 | any reachable state that stores a report whose version is not the largest continues to one where a delete removes a report that its validator refuses |
| Races.AnUnseenReportGoes | pkg/storage/inmemory/client.go:116-129 | such a schedule for a server that has just started |
| Cluster.CpolrStore.CreateCpolr | pkg/api/cpolr.go:330-342 | stamps the report with version 1 and overwrites a present entry; fails and changes nothing when it is absent |
| Cluster.CpolrStore.Create | pkg/api/cpolr.go:92-123 | the specified effect and response on every branch |
| Cluster.CpolrStore.Update | pkg/api/cpolr.go:125-174 | the same for forced and plain updates, which go through create |
| Cluster.CpolrStore.UpdateForced | pkg/api/cpolr.go:128-135 | the same as in the namespaced store, without stamping the report as new |
| Cluster.CpolrStore.Delete | pkg/api/cpolr.go:176-206 | the same for a delete |
| Cluster.CpolrStore.Get | pkg/api/cpolr.go:84-90 | the response that the specification gives for the current database |
| Cluster.CpolrStore.List | pkg/api/cpolr.go:55-82 | the response that the specification gives for the walk that was taken |
| Cluster.CpolrStore.DeleteCollection | pkg/api/cpolr.go:208-234 | the same for a collection delete |
| Cluster.CpolrStore.DeleteEach | pkg/api/cpolr.go:224-231 | the loop deletes what the specification shared with the namespaced store says and stops where it says |
| ClusterRuns.ClusterNeverAdds | pkg/api/cpolr.go:330-377 | no cluster request adds an entry, and every entry it writes has version 1 |
| ClusterRuns.ClusterIsForeign | pkg/api/cpolr.go:271-277 | a cluster request leaves every namespaced entry as it was |
| ClusterRuns.NamespacedIsForeign | pkg/api/polr.go:286-292 | a namespaced request leaves every cluster entry as it was |
| ClusterRuns.OtherVersionsAreElsewhere | pkg/api/v1beta1/polr.go:280-286 | changes under keys of another version leave all entries of both stores as they were |
| ClusterRuns.JointRunIsARun | pkg/api/install.go:57-62 | runs of both stores over one database are runs of the namespaced store, so all its properties hold in them |
| ClusterRuns.ClusterEntriesDescend | pkg/api/cpolr.go:330-342 | in every joint run from any database cluster entries only disappear, and each that is left is the initial one or a report of its key with version 1 |
| ClusterRuns.ClusterStaysOrderly | pkg/api/cpolr.go:330-377 | in every joint run cluster keys that agree with named reports whose versions parse go on doing so, whatever the requests are |
| ClusterRuns.ClusterWriteThenGet | pkg/api/cpolr.go:92-174 | a create, update or forced update that writes replaces one present entry, which Get then finds with version 1 whatever it was before |
| ClusterRuns.ClusterDeleteThenGet | pkg/api/cpolr.go:176-206 | after an accepted delete Get answers not-found, no other entry changes, and the stored report is what is announced |
| ClusterRuns.ClusterCollectionOutcome | pkg/api/cpolr.go:208-234 | in any state of a joint run exactly the entries before the first rejected one go, each announced twice, and it fails exactly when one is rejected |
| ClusterRuns.ClusterCollectionEmpties | pkg/api/cpolr.go:208-234 | with default selector and accepting validation it succeeds, leaves no cluster entry and every other entry as it was |
| ClusterRuns.ClusterStaysEmpty | pkg/api/cpolr.go:330-342 | in every joint run from a database without cluster entries there never are any |
| ClusterRuns.ClusterAnswersNothing | pkg/api/cpolr.go:55-174 | in such a run gets answer not-found, listings are empty, and creates that are not dry runs and plain updates fail |
| ClusterOutcomes.ClusterGetComesTo | pkg/api/cpolr.go:84-90 | the stored report, or not-found if there is none that can be read, and no change |
| ClusterOutcomes.ClusterListComesTo | pkg/api/cpolr.go:55-82 | a cluster listing fails if and only if some cluster value does not decode, and else answers all items or none |
| ClusterOutcomes.ClusterCreateComesTo | pkg/api/cpolr.go:92-123 | the response and the change of every cluster create: strict validation, kind, dry-run, absent entry, and else the entry replaced by the report stamped as new, announced and read back |
| ClusterOutcomes.ClusterUpdateComesTo | pkg/api/cpolr.go:137-174 | the response and the change of every plain cluster update, which creates anew what the transformer made of the stored report |
| ClusterOutcomes.ClusterForceComesTo | pkg/api/cpolr.go:128-135 | a forced cluster update sees the stored report or nothing, sets version 1, announces, and stores over a present entry only |
| ClusterOutcomes.ClusterDeleteComesTo | pkg/api/cpolr.go:176-206 | absent, rejected whether or not a dry run, dry run, and else the entry gone and announced once |
| ClusterOutcomes.DryClusterCollectionComesTo | pkg/api/cpolr.go:208-234 | a dry-run cluster collection delete answers as the listing does and changes nothing, and so when the listing fails |
| Buckets.Append | pkg/utils/monitoring.go:38-40 | appending yields the old view and the values, in place when they fit, and then spares what lies behind them |
| Buckets.Search | pkg/utils/monitoring.go:24-30 | the loop finds the first bucket above the timeout, or the last one |
| Buckets.InsertAt | pkg/utils/monitoring.go:37-40 | the two appends, the first overwriting in place, insert the timeout and lose nothing |
| Buckets.BucketsForScrapeDuration | pkg/utils/monitoring.go:11-44 | for any default array and any number of nanoseconds, the specified buckets, with the default array unmodified; for sane defaults they are in order, keep the defaults, and hold the timeout in seconds or one close to it, and beyond the largest default the halfway point, the timeout, half as much again and its double |
| Buckets.BucketsSurround | pkg/utils/monitoring.go:16-41 | the same of the buckets for any timeout in seconds |
| Buckets.StaysIncreasing | pkg/utils/monitoring_test.go:20-27 | for every timeout the buckets are strictly increasing |
| Buckets.StartsAboveZero | pkg/utils/monitoring_test.go:22-26 | the first bucket is above zero if and only if the timeout is |
| Buckets.ContentIsExact | pkg/utils/monitoring.go:16-41 | the buckets are the defaults plus nothing, the timeout, or four values |
| Buckets.CrowdedMeansClose | pkg/utils/monitoring.go:32-35 | insertion is skipped if and only if some default bucket is closer to the timeout than the smallest bucket |
| Buckets.TimeoutIsCovered | pkg/utils/monitoring_test.go:29-32 | the timeout is a bucket or some bucket is that close; at or above the largest default it is a bucket, and beyond it so is its double |
| Buckets.InsertedKeepsDistance | pkg/utils/monitoring.go:32-40 | a timeout inserted alone is at least the smallest bucket away from both neighbours |

## Left out

- The handlers of `pkg/api/v1alpha1`, `pkg/api/v1alpha2` and `pkg/api/v1beta1`: near copies of the modelled ones that the server does not install (`pkg/server/config.go:41`); only keys of other versions appear. `pkg/api/v1alpha2/polr.go:281` uses the same keys as `pkg/api`, so the two would share entries.
- The kine client (`pkg/storage/kine/client.go`): a foreign database; only the in-memory database is modelled.
- Server wiring, flags, probes, metrics registration, table conversion and generated schemas: plumbing, constant data and one-row-per-report claims.
- JSON syntax, the Kubernetes broadcaster, label-selector parsing, UUID and clock generation: library code, replaced by a record of optional fields, an append-only log, a predicate and inputs.
- Results inside a report's `body`: decoding a list of results into the reused variable writes into the slice elements of earlier items; the model lets `body` carry over as one field only.
- `Close` of the in-memory database: the database stays open.
- The state of a report object after a request has failed with it, and log and error message texts: only the kind of each error is kept.
- Rounding of bucket values: they are reals.
- Cluster requests as steps of the concurrent model: they appear there only as changes that another store makes to its own entries.
