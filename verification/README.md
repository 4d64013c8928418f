# A verified model of the Gunkan object storage

Gunkan stores blobs on file systems and indexes them in ordered key-value stores. This project models, in
Dafny, the parts of it where several pieces have to work together, and proves what they promise.

* **The index listing** (`ByteOrder`, `IndexKey`, `IndexStore`, `GateMerge`, `IndexGate`, `Paging`,
  `ListClient`). Stores answer pages of a sorted key space, the gate merges the truncated pages of all backends, the client pages
  through the result. A page is defined once, by `ByteOrder.IsPage`: the first elements of a set, in order, full
  unless the set is exhausted. Store scan, merge, gate reply and whole listing are all stated with it.
* **The fan-out of a gate request** (`FanOut`): queue, workers, worker channels, consumers, wait group and closer as
  a state machine over single goroutine steps, for any number of workers, targets and any channel capacities.
* **The pooled client** (`ClientPool`): tokens and idle clients shared by any number of requests, also as steps.
* **The codecs** (`IndexKey`, `BlobIds`, `BlobListing`, `BlobNames`, `Splitting`).
* **The blob repository** (`BlobDisk`, `BlobRepo`, `BlobRuns`): an abstract file tree, the repository and its handlers
  on it, and runs with many uploads in flight whose calls interleave.

Code that updates things in place is modelled by classes and methods with loops (`BaseKey`, `Cursor`, `Store`, `Merger`,
`Builder`, `Reader`, `Repo`); each method is proved against a function or relation on values, and the lemmas are about
those. `Sums` holds sums over the parts of a state; `Wrappers` an option type.

Strings are sequences of characters, ordered by code points, which agrees with the byte order of UTF-8 (section 1 of
RFC 3629); they are taken to be valid UTF-8. In `BlobNames` a character stands for a byte.

Where the code and its documentation disagree, the model follows the code:

* `api/index.proto:14-15` says that `Delete` removes a reference. The stores write an empty value, so the key
  remains (`IndexStore.DeletedKeyRemains`).
* `api/index.proto:17-18` says that `Get` fetches the reference. Through the gate the value is lost, because stores leave
  the version at 0 and the gate keeps only values with a positive version (`IndexGate.GetOverStoresLosesTheValue`).
* `BLOB.md:45` calls CRLF a separator of the ids in a list. The client drops an id that no line feed ends
  (`BlobListing.UnterminatedIdIsLost`).
* `BLOB.md:25-26` describes blob ids as 64 hexadecimal characters; the code encodes four fields with commas.

Clocks and random numbers are parameters, and so is what each network call meets: a store in some state, or a failure.

## Model

| member | source | states |
|---|---|---|
| `ByteOrder.LessIsFirstDifference` | internal/cmd-index-store-rocksdb/service.go:136-141 | keys are ordered by the first character that differs, the smaller one first, a string before its extensions; this one order serves the store, the merge and the client |
| `ByteOrder.PageIsStart` | internal/cmd-index-store-rocksdb/service.go:142-162 | a page is the start of the whole set in that order |
| `IndexKey.BaseKey.DecodeString` | pkg/gunkan/index_key.go:43-71 | the character loop leaves in the fields what precedes and follows the first comma; without comma the key keeps its prior contents |
| `IndexKey.DecodeInvertsEncode` | pkg/gunkan/index_key.go:35-71 | decoding gives back the encoded pair, from any prior contents, if and only if the base holds no comma |
| `IndexKey.EncodeInvertsDecode` | pkg/gunkan/index_key.go:35-71 | encoding gives back the decoded string, from any prior key, if and only if it holds a comma |
| `IndexKey.EncodeKeepsOrder` | pkg/gunkan/index_key.go:20-37 | for a fixed base, encoded keys are ordered as the keys are, both ways |
| `IndexKey.BaseIsContiguous` | pkg/gunkan/index_key.go:35-71 | whatever lies between two encoded keys of a comma-free base decodes to that base |
| `IndexStore.Store.Put` | internal/cmd-index-store-rocksdb/service.go:47-63 | the encoded key gets the value; nothing else changes |
| `IndexStore.Store.Delete` | internal/cmd-index-store-rocksdb/service.go:65-80 | the encoded key gets the empty value |
| `IndexStore.Store.Get` | internal/cmd-index-store-rocksdb/service.go:82-107 | seek-then-compare answers the value under `base,key` if the base holds no comma and the key is there, and not found otherwise |
| `IndexStore.Store.List` | internal/cmd-index-store-rocksdb/service.go:109-163 | the reply is the ordered page of the keys of the base after the marker, of one key more than the maximum asked for, or than 10000; fewer only if there are no more; only an empty base is refused; a base with a comma has no keys |
| `IndexStore.ListReplySize` | internal/cmd-index-store-rocksdb/service.go:110-144 | a store answers exactly min(keys after the marker, min(max, 10000) + 1) keys |
| `IndexStore.SkipTo` | internal/cmd-index-store-rocksdb/service.go:136-141 | the cursor stops at the first entry strictly beyond the needle |
| `IndexStore.Scan` | internal/cmd-index-store-rocksdb/service.go:142-162 | the scan, stopped by the count or by the first foreign base, collects exactly the page of the keys after the marker |
| `IndexStore.ScanIsPage` | internal/cmd-index-store-rocksdb/service.go:142-160 | stopping at the first foreign base misses no key, since a base is contiguous among the sorted raw keys |
| `IndexStore.WriteTouchesOnePair` | internal/cmd-index-store-rocksdb/service.go:47-80 | a write changes exactly one decoded pair, and that is its own pair if and only if its base holds no comma |
| `IndexStore.WritesRefinePairs` | internal/cmd-index-store-rocksdb/service.go:47-80 | any run of writes with comma-free bases acts on the raw map as the same writes on a map of pairs |
| `IndexStore.ReplayKeys` | internal/cmd-index-store-rocksdb/service.go:47-80 | after any run of writes the raw keys are those before and those written, no others |
| `IndexStore.WritesKeepKeys` | internal/cmd-index-store-rocksdb/service.go:47-80 | no run of puts and deletes ever shrinks the key set |
| `IndexStore.ReadBack` | internal/cmd-index-store-rocksdb/service.go:47-107 | a written pair is read back if its base holds no comma, and is not found otherwise |
| `IndexStore.DeletedKeyRemains` | internal/cmd-index-store-rocksdb/service.go:65-163 | `Delete` does not remove (api/index.proto says it does): the key is then found with an empty value and listed, even if it was absent; it is not found only when its base holds a comma |
| `GateMerge.Merger.LeastHead` | internal/cmd-index-gate/service.go:422-434 | the item found is under a cursor and, over ordered pages, not above any unread item of any page; over pages without empty strings none is found only if all are read |
| `GateMerge.Merger.Min` | internal/cmd-index-gate/service.go:422-439 | exactly one cursor moves, by one place, past the item taken, which is the least unread one when the pages are in order; if none is taken no cursor moves |
| `GateMerge.Merger.Poll` | internal/cmd-index-gate/service.go:441-458 | the item polled was unread and is no repeat of the last one, and nothing but it and repeats of the last one is passed over; over ordered pages it is the least of what was still to be sent |
| `GateMerge.KeepSingleDedup` | internal/cmd-index-gate/service.go:413-473 | for any pages the merge ends, sends at most `max` of their items, no two neighbours equal, and all of them if there is room and none is empty; over ordered pages it sends exactly the first `max` elements of their union, ascending, each once |
| `GateMerge.MergeIgnoresOrder` | internal/cmd-index-gate/service.go:413-473 | any permutation of the pages gives the same output |
| `IndexGate.List` | internal/cmd-index-gate/service.go:366-410 | any replies drained in any order: an error exactly if all failed, else items of the pages, at most the maximum clamped to 1..10000, all of them if there is room; when the pages are in order, the page of their union, full unless it is the whole union |
| `IndexGate.ListOutcomeIgnoresOrder` | internal/cmd-index-gate/service.go:387-410 | the outcome depends on the set of replies only |
| `IndexGate.StoresSendMergeablePages` | internal/cmd-index-store-rocksdb/service.go:136-162 | store pages are ascending and hold no empty key, as the merge needs |
| `IndexGate.CutPartsSuffice` | internal/cmd-index-gate/service.go:390-405 | an item cut off a page of a store cannot be among the first of the union: the merged page is full of smaller items |
| `IndexGate.GatePageIsUnionPage` | internal/cmd-index-gate/service.go:346-411 | the gate page built from the truncated store pages is the page of the union of all matching keys of the reached stores; it is an error exactly when the base is empty or no store is reached |
| `IndexGate.GatePageSize` | internal/cmd-index-gate/service.go:366-411 | a gate answers exactly min(matching keys of the reached stores, the maximum clamped to 1..10000) keys |
| `IndexGate.AnswerSize` | internal/cmd-index-gate/service.go:347-370 | a reached store sends the gate one key more than the clamped maximum, if it has as many |
| `IndexGate.Get` | internal/cmd-index-gate/service.go:325-343 | fails exactly when no backend succeeded; else the version is the highest one received, and a positive version comes with the value of the first backend that sent it |
| `IndexGate.GetOutcomeUnique` | internal/cmd-index-gate/service.go:325-343 | for a given order of arrival the answer is determined |
| `IndexGate.GetOutcomeNext` | internal/cmd-index-gate/service.go:325-343 | one more answer replaces the outcome exactly if its version is strictly higher; a failed one changes nothing; a success without a positive version gives the empty value |
| `IndexGate.GetIgnoresOrderIffWinnersAgree` | internal/cmd-index-gate/service.go:325-343 | the answer is the same for every order of arrival if and only if all backends with the highest positive version sent the same value |
| `IndexGate.GetOverStoresLosesTheValue` | internal/cmd-index-gate/service.go:289-344 | over the stores, which never set a version, and for answers in any order, `Get` succeeds exactly when a reached store holds the pair, and then always answers the empty value |
| `IndexGate.Acknowledge` | internal/cmd-index-gate/service.go:225-241 | `Put` and `Delete` succeed if and only if one backend did |
| `ListClient.FetchPage` | internal/cmd-index-client/cmd.go:134-139 | one page request, through the gate to its stores or straight to a store, brings the first keys beyond the marker of what it can see |
| `ListClient.FetchIsReply` | internal/cmd-index-client/cmd.go:134-139 | that is the reply of the store, or what the gate makes of the truncated replies of its stores; an error exactly when the base is empty or no store is reached |
| `ListClient.ListCommand` | internal/cmd-index-client/cmd.go:134-152 | the paging loop follows the recursive listing over any trace of what the requests meet, in full mode and for a single page |
| `Paging.ListingIsSound` | internal/cmd-index-client/cmd.go:134-151 | whatever happens between the pages: the printed keys ascend strictly, follow the initial marker, and each was visible to one of the requests |
| `Paging.ListingIsComplete` | internal/cmd-index-client/cmd.go:134-151 | a full listing that ends well prints every key after the marker that each request could see |
| `Paging.ListingEnds` | internal/cmd-index-client/cmd.go:134-151 | a listing fails exactly with the error of its last request, all earlier ones having succeeded; in full mode it ends well only when its last request can see nothing beyond the last key printed |
| `Paging.SinglePage` | internal/cmd-index-client/cmd.go:134-151 | without the full mode one request prints the start of the ordered keys beyond the marker, as many as fit in a page |
| `ListClient.FullListingMissesNothing` | internal/cmd-index-client/cmd.go:134-151 | with arbitrary writes, new stores and failing backends at any moment: a key present at the start on a store that answers each request is printed exactly once by a listing that ends well |
| `ListClient.ListingInventsNothing` | internal/cmd-index-client/cmd.go:134-151 | each key printed is held, under that base, by a store that answered one of the requests, at the moment it answered |
| `ListClient.CallsMeetStores` | internal/cmd-index-gate/service.go:346-364 | the calls of a request meet the stores that answer, each as it is when it answers, and no others |
| `ListClient.KeyStays` | internal/cmd-index-store-rocksdb/service.go:47-80 | while a cluster evolves, a store never loses a raw key |
| `ListClient.EvolvesByItsWrites` | internal/cmd-index-store-rocksdb/service.go:47-80 | while a cluster evolves, a store holds what the writes made on it make of what it held, and nothing else |
| `ListClient.JoinsEmpty` | internal/cmd-index-store-rocksdb/service.go:47-80 | a store that joins is empty, and then evolves by its writes |
| `Paging.SteadyListingIsScan` | internal/cmd-index-client/cmd.go:134-151 | when the visible keys do not change, the full listing ends and its pages put together are one ordered scan of them |
| `ListClient.UnchangingIndexIsScanned` | internal/cmd-index-client/cmd.go:134-151 | so does a listing of an unchanging index, through gates or straight to stores, for every maximum, 0 included |
| `ListClient.UnchangingIndexRequests` | internal/cmd-index-client/cmd.go:134-151 | such a listing takes one request for each page that the keys fill, and one more; pages hold the maximum clamped to 1..10000 through gates, and one key more than the capped maximum straight from a store |
| `Paging.SteadyRequests` | internal/cmd-index-client/cmd.go:134-151 | a full listing over keys that do not change takes as many requests as there are pages, plus the empty one |
| `Paging.PagesIsCeiling` | internal/cmd-index-client/cmd.go:134-151 | the number of pages is the number of keys over the page size, rounded up |
| `FanOut.InvNext` | internal/cmd-index-gate/service.go:128-242 | every step of every goroutine keeps the invariant: targets conserved and counted, channels within capacity, a closed worker implies a drained closed queue, nothing received while feeding, the wait group counts the live consumers |
| `FanOut.ConservedNext` | internal/cmd-index-gate/service.go:128-242 | each target is always in one place: to be fed, queued, in a worker, a channel or a consumer, or received |
| `FanOut.LanesKeepOrder` | internal/cmd-index-gate/service.go:128-149 | each worker with its channel and consumer keeps the order in which it took its targets; the queue and what is received keep theirs |
| `FanOut.NoSendOnClosedChannel` | internal/cmd-index-gate/service.go:128-149 | the merged channel is closed only when no consumer has something to send; feeding never blocks if the input channel has a place for each target, as it has for `Put` and `Delete` |
| `FanOut.NoDeadlock` | internal/cmd-index-gate/service.go:197-287 | in every reachable state that has not returned, some goroutine can move, for any capacity of the channels, 0 included, as long as the goroutines have room for the targets |
| `FanOut.TooManyTargetsNeverReturn` | internal/cmd-index-gate/service.go:310-323 | `Get` and `List` size the input channel before they iterate over the backends, without the lock: with more targets than places in the input channel plus, for each worker, the places of its channel and two, no run ever stops feeding |
| `FanOut.WeightDecreases` | internal/cmd-index-gate/service.go:128-242 | every step decreases a weight that is never negative |
| `FanOut.RunsAreBounded` | internal/cmd-index-gate/service.go:197-287 | no run is longer than six steps for each target, two for each worker and three more |
| `FanOut.ReturnedHasAll` | internal/cmd-index-gate/service.go:225-235 | on return, each answer was received as often as its target was asked |
| `FanOut.MaximalRunsReturnEverything` | internal/cmd-index-gate/service.go:197-287 | a run that cannot go on has returned if and only if there was room for the targets, and then with every answer |
| `FanOut.ListIgnoresInterleaving` | internal/cmd-index-gate/service.go:346-411 | the reply of `List` is the same for every interleaving |
| `FanOut.ListOverStores` | internal/cmd-index-gate/service.go:346-411 | for every interleaving over stores, the pages drained can be merged, and the reply is the page of the union of the matching keys of the reached stores |
| `FanOut.GetIgnoresInterleavingIffWinnersAgree` | internal/cmd-index-gate/service.go:289-344 | over all interleavings and all orders of the backends, `Get` has at most one possible answer if and only if the targets with the highest positive version answer alike, or there is no room for the targets so that it never answers |
| `FanOut.GetOverStores` | internal/cmd-index-gate/service.go:289-344 | for every interleaving over stores, `Get` answers the empty value if a reached store holds the pair, and an error otherwise |
| `FanOut.WriteSucceedsIffOneBackendDid` | internal/cmd-index-gate/service.go:197-287 | for every interleaving, the handler of `Put` and `Delete` sees a success if and only if one backend succeeded |
| `ClientPool.InvNext` | pkg/gunkan/index_client_pooled.go:83-123 | every step of every request keeps the invariant: tokens and clients conserved, each client dialed in exactly one place, nobody waits while tokens are left |
| `ClientPool.Conservation` | pkg/gunkan/index_client_pooled.go:33-123 | unused tokens, idle clients, held clients, dials in progress and failed dials always add up to the pool size; no more dials ever happen |
| `ClientPool.NoSharing` | pkg/gunkan/index_client_pooled.go:92-123 | no client is held by two requests, nor held and idle |
| `ClientPool.ReleaseNeverBlocks` | pkg/gunkan/index_client_pooled.go:119-123 | the idle channel always has room for a held client |
| `ClientPool.WaitIsNotDeadlock` | pkg/gunkan/index_client_pooled.go:101-117 | a request waits only when no token is left; a client is then idle, held or being dialed if and only if fewer dials failed than the pool has places |
| `ClientPool.WaitCanEnd` | pkg/gunkan/index_client_pooled.go:101-117 | while some dial has not failed, the waiting request can obtain a client, or another can release its client or finish its dial |
| `ClientPool.EveryRequestCanMove` | pkg/gunkan/index_client_pooled.go:83-123 | a request can take a step of its own at any time until it is gone, a waiting one by giving up at least |
| `ClientPool.RequestsEnd` | pkg/gunkan/index_client_pooled.go:83-123 | in any run, a request takes at most four steps |
| `ClientPool.IdleIsReused` | pkg/gunkan/index_client_pooled.go:92-105 | a request that arrives while clients are idle takes the one idle longest; it asks for a token exactly when none is idle, and dials exactly when it gets one |
| `ClientPool.OneAtATimeSharesOneClient` | pkg/gunkan/index_client_pooled.go:92-123 | requests that come one after the other dial one client at most |
| `ClientPool.ExhaustedForGood` | pkg/gunkan/index_client_pooled.go:83-117 | once as many dials failed as the pool has places, no request ever holds a client again |
| `ClientPool.FailuresExhaust` | pkg/gunkan/index_client_pooled.go:83-117 | any number of failed dials up to the pool size can happen, one request after the other |
| `ClientPool.StopsExactlyWhenExhausted` | pkg/gunkan/index_client_pooled.go:83-123 | after a run, no continuation serves anybody if and only if as many dials failed as the pool has places |
| `ClientPool.TwoFailuresStopThePool` | pkg/gunkan/index_client_pooled.go:13-15 | with the pool size of the code there is one run, with two failed dials, that no continuation serves anybody after |
| `BlobIds.DecodeBlobId` | pkg/gunkan/blob.go:64-108 | the character state machine computes the decoding of the comma-separated tokens |
| `BlobIds.EncodeIn` | pkg/gunkan/blob.go:53-62 | appends the encoding to the builder |
| `BlobIds.EncodeMarkerIn` | pkg/gunkan/blob.go:34-45 | appends the marker to the builder |
| `BlobIds.DecodeInvertsEncode` | pkg/gunkan/blob.go:53-108 | decoding an encoded id gives it back if its fields hold no comma and its position is below 2147483648, and fails on every other id |
| `BlobIds.AcceptedStrings` | pkg/gunkan/blob.go:64-108 | exactly the strings with at most three commas whose last token is a decimal below 2^31 are accepted |
| `BlobIds.DecodedFields` | pkg/gunkan/blob.go:64-108 | the last token is the position, those before it are bucket, content and part, in this order; missing fields are empty |
| `BlobIds.DecodeIsStable` | pkg/gunkan/blob.go:53-108 | re-encoding what was decoded from any accepted string decodes to the same id |
| `BlobIds.MarkerFields` | pkg/gunkan/blob.go:34-45 | the tokens of a marker are the bucket, then the content if it is not empty, then the part if neither is |
| `BlobIds.MarkerIsPrefix` | pkg/gunkan/blob.go:34-62 | a marker is a prefix of the encoding of its id, as BLOB.md says of markers |
| `BlobIds.DigitsAreTheValue` | pkg/gunkan/blob.go:61 | the decimal digits printed for a position have its value |
| `BlobIds.ValueOfBoth` | pkg/gunkan/blob.go:105 | the value of a decimal string is that of its first part, times ten for each digit of the second, plus that of the second |
| `BlobIds.ValueOfDigit` | pkg/gunkan/blob.go:105 | a single digit stands for its distance from `0` |
| `BlobIds.NoLeadingZero` | pkg/gunkan/blob.go:61 | positions are printed without leading zeros |
| `BlobListing.UnpackBlobIdArray` | pkg/gunkan/blob_client_direct.go:157-177 | a stream that breaks gives an error, whatever came before; else the ids of the complete lines, cut at the line feeds, trimmed and decoded, in order, or an error exactly if one of them is no id |
| `BlobListing.UnpackedLineByLine` | pkg/gunkan/blob_client_direct.go:157-177 | the same of the function that the round trips are about |
| `BlobListing.TrimIsExact` | pkg/gunkan/blob_client_direct.go:169 | a line loses all carriage returns and line feeds at both ends, and nothing else |
| `BlobListing.LineRoundTrip` | pkg/gunkan/blob_client_direct.go:168-174 | a single line gives its id back if and only if the id is clean: no comma, no carriage return at the start, position below 2^31 |
| `BlobListing.ListingRoundTrip` | pkg/gunkan/blob_client_direct.go:157-177 | a list of ids, each encoded and followed by CRLF, is unpacked to the same list if and only if all ids are clean: no comma or line feed in the fields, no carriage return at the start of the bucket, position below 2^31 |
| `BlobListing.UnterminatedIdIsLost` | pkg/gunkan/blob_client_direct.go:160-164 | if CRLF only separates the ids, as BLOB.md:45 has it, the last one is dropped without error |
| `BlobNames.IdDeterminesTickAndRandom` | internal/cmd-blob-store-fs/repository.go:126-130 | ids are nine hexadecimal digits, equal exactly when the tick modulo 65536 and the random number are |
| `BlobNames.IdHasValue` | internal/cmd-blob-store-fs/repository.go:126-130 | an id read as a hexadecimal number is the tick of 268435456 ns modulo 65536, times 1048576, plus the random number |
| `BlobNames.NearTicksNeverCollide` | internal/cmd-blob-store-fs/repository.go:126-130 | two creations in different ticks of 2^28 ns, less than 65536 ticks apart, never get the same id or path |
| `BlobNames.LocationHasTickAndRandom` | internal/cmd-blob-store-fs/repository.go:83-130 | a location is four digits of the tick, a slash, and five digits of the random number; the first name the directory, the others the file |
| `BlobNames.ComponentsGrow` | internal/cmd-blob-store-fs/repository.go:83-92 | a path leads through its names in order; empty names and dots lead nowhere |
| `BlobNames.LocationResolves` | internal/cmd-blob-store-fs/repository.go:83-92 | the location sent to the client leads to the file of the id, for a deletion as it is and for a reading through a second cut; the id itself can be read but not deleted |
| `BlobNames.LocationInjective` | internal/cmd-blob-store-fs/repository.go:83-92 | different ids have different locations and paths |
| `BlobRepo.Repo.Mkdir` | internal/cmd-blob-store-fs/repository.go:94-105 | the recursive mkdir ends for every depth; it fails exactly when a file lies on the way, and then changes nothing; else it adds the missing directories |
| `BlobDisk.WithDirsMakesThePath` | internal/cmd-blob-store-fs/repository.go:94-105 | on success the path exists, every proper ancestor is a directory, and nothing is removed or changed |
| `BlobDisk.WithDirsAdds` | internal/cmd-blob-store-fs/repository.go:94-105 | exactly the missing nodes on the way are added, as directories |
| `BlobRepo.Repo.CreateOrRetry` | internal/cmd-blob-store-fs/repository.go:107-120 | creates the file exclusively, making the directories it lacks; an existing name is refused; without retry a missing directory is an error that changes nothing |
| `BlobRepo.CreatedAdds` | internal/cmd-blob-store-fs/repository.go:107-143 | a creation changes nothing, or adds one empty file at a free name and leaves all others as they are |
| `BlobRepo.CreatedUnlessTaken` | internal/cmd-blob-store-fs/repository.go:107-143 | a blob cannot be created exactly when its name is taken, or when a file has the name of its directory, each with its own error |
| `BlobRepo.Repo.Create` | internal/cmd-blob-store-fs/repository.go:132-143 | the builder holds the new file, named by the location of the next id |
| `BlobRepo.Repo.Open` | internal/cmd-blob-store-fs/repository.go:145-159 | only a name shorter than four bytes makes the code panic; otherwise what is at the path, with the directory cut off, is opened, and if nothing is there the error is ENOTDIR if a file lies on the way, else ENOENT; under its location or its bare id a blob's file is opened exactly when there is one, with the content of the blob |
| `BlobRepo.Repo.Delete` | internal/cmd-blob-store-fs/repository.go:122-124 | succeeds exactly when the name leads, uncut, to a file, and then only that file is gone; else EISDIR on a directory, ENOTDIR below a file, ENOENT if nothing is there; the location of a blob leads to its file |
| `BlobRepo.Repo.Abort` | internal/cmd-blob-store-fs/repository.go:165-172 | the file that the builder was created under is gone, and no other; it is that of the blob when the name is its location |
| `BlobRepo.ReadAsLocation` | internal/cmd-blob-store-fs/repository.go:145-159 | a location, and the bare id, read as the content of the file of the id |
| `BlobRepo.HandleBlobPut` | internal/cmd-blob-store-fs/handlers.go:88-114 | the response is determined: bad id, name taken, directory blocked by a file, failed copy, or stored; only a stored upload leaves a trace: it is read back under the location sent, at a name that was free, and no other blob changes |
| `BlobRepo.HandleBlobGet` | internal/cmd-blob-store-fs/handlers.go:58-86 | under any name of a blob, a download sends exactly what its file holds, no body if that is nothing; it fails to open exactly when nothing is there, with the reason, and to copy exactly on a directory |
| `BlobRepo.HandleBlobDel` | internal/cmd-blob-store-fs/handlers.go:49-56 | 204 exactly when the name leads to a file, which is then gone; 404 exactly when a name is missing; 500 otherwise; no other file changes |
| `BlobRuns.InvNext` | internal/cmd-blob-store-fs/repository.go:94-189 | with any number of uploads in flight, the steps of which interleave call by call (create, make the directory, create again, write, commit, abort), and with deletions, every step keeps the invariant |
| `BlobRuns.CreationEnds` | internal/cmd-blob-store-fs/repository.go:107-120 | whatever other uploads do between the calls, a creation is refused exactly when the name is taken or a file has the name of its directory, and the second attempt always finds the directory |
| `BlobRuns.DirectoryIsMade` | internal/cmd-blob-store-fs/repository.go:94-105 | making the directory of a blob succeeds even if another upload has just made it, and changes no file |
| `BlobRuns.AloneIsCreated` | internal/cmd-blob-store-fs/repository.go:94-143 | without interference the calls of a creation do what the creation does as a whole |
| `BlobRuns.UploadIsReadBack` | internal/cmd-blob-store-fs/repository.go:107-189 | in any run: an upload that begins, sends and commits, among any other actions, is committed under the id drawn when it began and is read back under its location as the concatenation of all it sent, in order, until that blob is removed |
| `BlobRuns.CommittedIsReadable` | internal/cmd-blob-store-fs/repository.go:132-189 | at any point of any run, a committed blob reads under its location as what its commit promised |
| `BlobRuns.PromisesAreKept` | internal/cmd-blob-store-fs/repository.go:122-189 | the content promised for a blob changes only by its own deletion; a commit takes a free id |
| `BlobRuns.FilesAreTheBlobs` | internal/cmd-blob-store-fs/repository.go:107-189 | the files are those of the committed blobs, of the uploads in flight and those left by interrupted uploads, no more and no less |
| `BlobRuns.LeftoversStay` | internal/cmd-blob-store-fs/repository.go:107-189 | a file left by an interrupted upload keeps its content until it is deleted by its own location |
| `BlobRuns.NothingIsStuck` | internal/cmd-blob-store-fs/repository.go:107-189 | an upload in flight can always make its next call, or write on, commit or abort, and the location of a committed blob always names its file for a deletion |
| `BlobRuns.RunExtends` | internal/cmd-blob-store-fs/repository.go:107-189 | what can be done next can be done: any enabled action extends the run |
| `BlobRuns.RemovedIsGone` | internal/cmd-blob-store-fs/repository.go:122-124 | a removed blob is no longer committed and its location leads to nothing; no other file changes |
| `BlobRuns.AbortIsClean` | internal/cmd-blob-store-fs/repository.go:165-172 | an abort removes the file of its own upload and alters no other |

## Left out

- IndexStore.Cursor: a RocksDB iterator is a walk over the sorted keys of a snapshot; database errors are not modelled.
- IndexStore.Store.List: the negative-maximum branch cannot be taken on an unsigned number and is absent.
- IndexGate.List: over pages that are not in order, which no store sends, the contract does not say which items come first when there is no room for all.
- GateMerge.KeepSingleDedup: the channel and the goroutine that carry the output are a sequence.
- ListClient.ListCommand: the parsing of arguments and the choice of a connection are not modelled; the trace of a run is finite, and a listing longer than its trace is reported as unfinished.
- BlobIds.Decode: syntax and range errors of the position are one error; the partial id returned along with an error is not modelled.
- BlobRepo.Repo.Mkdir: errors of the disk itself, and other processes changing the tree, are not modelled; that uploads run at the same time is the subject of `BlobRuns`.
- BlobRepo.HandleBlobGet: the size of a directory, and a file that grows between its size and its copy, are not modelled.
- BlobRepo.Repo.Open: names with `..` or a leading slash, which leave the base directory, names ending in a slash, and symbolic links are not modelled; opening succeeds on a directory, as on Linux.
- BlobRepo.HandleBlobDel: the other statuses of errors (forbidden, timeout) belong to errors that the model does not have.
- BlobRepo.Repo.Commit: the optional syncs, off by default, are not modelled.
- BlobRuns.Next: deleting a file while it is being uploaded, and deletions by names that are not locations, are not modelled.
- The reload of backends in the gate: a request works on the targets it iterates over; only the size of its input channel may differ from their number.
- Cancelled contexts inside backend calls: a call answers or fails.
- gRPC, HTTP, TLS, Consul discovery, metrics, logging and the command line: plumbing around libraries.
- `PartId`: its encoder and decoder use different field orders, so no inverse holds.
- The data gate, the balancers and the overload checks: stubs, or too simple to say something about.
