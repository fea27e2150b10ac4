# Progressive video cache, resource loader, LRU cache and player ring, in Dafny

This project models the core of the InstagramReels video player (Swift) in four parts.

- **`VideoCache`** (`video_cache.dfy`, with the lookup in `range_query.dfy`) keeps, per url, the byte spans fetched so far, keyed by start offset. `getData` sorts the start offsets. It keeps the keys from the first one at or below the requested offset up to the last one whose span reaches the end of the request. It then scans them: a span that covers the whole request is sliced directly; otherwise coverage is accumulated over touching or overlapping spans up to the first gap, then clipped to the request. The lookup is the pure function `RangeQuery.Query`. The class method `GetData` runs the same loop and is proved equal to it. Swift's run-time traps (a range whose lower bound exceeds its upper bound) are the explicit outcome `Trap`.
- **`ResourceLoaderDelegate`** (`resource_loader.dfy`) answers the media engine's read requests from the cache. It queues what it cannot finish, keeps at most one download in flight (`Range: bytes=N-`, `range_header.dfy`), and replays the cache to the queue when the download completes. Engine requests are `LoadingRequest` objects that record every `respond(with:)` and `finishLoading` made on them. Download completion is the explicit event `DownloadCompleted`.
- **`LRUCache` and `LinkedList`** (`lru_cache.dfy`, with the abstract state in `lru_spec.dfy`) are a doubly linked recency list whose nodes are relinked in place, plus a dictionary from keys to nodes.
  - The list is described by the ghost sequence `nodes`.
  - The cache is described by the value `LruSpec.Lru(items, count, capacity)`.
  - Every cache method is proved to compute the matching `LruSpec` function.
- **`PlayerManager`** (`player_manager.dfy`) is a ring of three players with a current slot. It covers advance and retreat, the slot arithmetic of `preparePlayer` (Swift's truncating `%` written out as `TruncRem`), and the rule that a url's resource-loader delegate is created and registered only once.

Behaviours of the code that the model keeps:
- The capacity of `LRUCache` is not checked at construction.
- The LRU can grow past its capacity (see Findings).
- The cache lookup traps, rather than returning nothing, when the scan stops at a gap that lies before the requested offset. This happens even for a request that lies wholly inside one stored span when gaps separate that span from the smallest one (`RangeQueryFacts.CoveredRequestIsExactOrTraps`, `RangeQueryFacts.CoveredBehindGapsTraps`).
- Overlapping spans are appended whole, so a hit over them can report a byte that is not the one stored at its position (`RangeQueryFacts.OverlapDuplicatesBytes`).
- A hit on a fresh request with a positive length never finishes it at once. `respond(with:)` advances `currentOffset` before the test, and a hit never carries fewer bytes than the range it claims, so the request is queued instead (`RangeQueryFacts.HitCoversItsRange`, `Loader.FreshHitFinishesOnlyWhenEmpty`).
- When a download completes, a queued request is answered and finished whenever the lookup returns any data for it, even a clipped part. It can therefore be finished with fewer bytes than it asked for (`RangeQueryFacts.GapStopsCoverage` shows a hit with 50 of 100 requested bytes). A request whose bytes are partly cached stays queued when no span reaches its end.
- Queued requests are looked up again from their `requestedOffset`, not from their advanced `currentOffset`. A request that got a prefix on arrival receives that prefix a second time (`Loader.Handled`).
- A completed download does not start another one for requests it did not satisfy. A failed download leaves its task set, so the delegate never starts another one.
- A new entry is pushed before the tail is evicted.

## Model

| member | source | states |
|---|---|---|
| RangeQuery.SortedKeys | VideoPlayer/Logic/VideoCache.swift:18 | `videoCache.keys.sorted()`: the result has exactly as many elements as the key set |
| RangeQuery.SortedKeysMembers | VideoPlayer/Logic/VideoCache.swift:18 | every element of the sorted keys is a stored key |
| RangeQuery.SortedKeysComplete | VideoPlayer/Logic/VideoCache.swift:18 | every stored key occurs in the sorted keys |
| RangeQuery.SortedKeysSorted | VideoPlayer/Logic/VideoCache.swift:18 | the sorted keys are strictly ascending |
| RangeQuery.FirstAtOrBelow | VideoPlayer/Logic/VideoCache.swift:19 | `firstIndex(where: { $0 <= offset })`: a found index is in range and its key is at or below the offset |
| RangeQuery.FirstAtOrBelowSkips | VideoPlayer/Logic/VideoCache.swift:19 | every key before the found index (or every key, when none is found) is above the offset |
| RangeQuery.LastReaching | VideoPlayer/Logic/VideoCache.swift:20 | `lastIndex(where:)`: a found index is in range and its span ends at or past the end of the request |
| RangeQuery.LastReachingSkips | VideoPlayer/Logic/VideoCache.swift:20 | no span after the found index (or no span at all, when none is found) reaches the end of the request |
| RangeQuery.LastReachingFinds | VideoPlayer/Logic/VideoCache.swift:20 | if some span reaches the end of the request, the search finds an index at or after it |
| RangeQuery.EndOf | VideoPlayer/Logic/VideoCache.swift:20 | `$0 + Int64(videoCache[$0]?.count ?? 0)`: where the span starting at a key ends, an absent key counting as empty |
| RangeQuery.Query | VideoPlayer/Logic/VideoCache.swift:15-56 | `getData`: nothing stored for the url gives no data; a hit claims a range inside the requested `offset..<offset+length`. That it starts exactly at the offset is `HitStartsAtOffset`; that it is the longest contiguously covered prefix is `HitIsLongestPrefix` |
| RangeQuery.Scan | VideoPlayer/Logic/VideoCache.swift:28-49 | the `for` loop from a given state: a fast-path answer has exactly `length` bytes, and coverage, once recorded, is never lost and keeps its lower end |
| RangeQuery.Clip | VideoPlayer/Logic/VideoCache.swift:51-55 | the final slice never answers nothing. With coverage starting at or below the offset, it is a hit exactly when the coverage reaches the offset and the combined bytes reach it too, and a hit then starts at the offset; otherwise it traps. Every hit claims `max(offset, lower)..<min(offset+length, upper)` |
| RangeQuery.Finish | VideoPlayer/Logic/VideoCache.swift:32-55 | the result after the loop is nil exactly when the loop recorded no coverage; with coverage starting at or below the offset, every hit starts at the offset |
| RangeQuery.Insert | VideoPlayer/Logic/VideoCache.swift:58-63 | `store`: the span lands at its start key, replacing an earlier span with the same start, and every other start key keeps its span |
| RangeQueryFacts.FirstFound | VideoPlayer/Logic/VideoCache.swift:19 | the first guard passes exactly when some span starts at or below the offset |
| RangeQueryFacts.LastFound | VideoPlayer/Logic/VideoCache.swift:20 | the second guard passes exactly when some span reaches the end of the request |
| RangeQueryFacts.QueryMissIff | VideoPlayer/Logic/VideoCache.swift:16-22 | `getData` returns nil exactly when nothing is stored, every span starts after the offset, or no span reaches the end of the request |
| RangeQueryFacts.MissIffGuardsFail | VideoPlayer/Logic/VideoCache.swift:19-51 | `getData` returns nil exactly when one of its two `guard`s fails |
| RangeQueryFacts.PastGuardsNeverMiss | VideoPlayer/Logic/VideoCache.swift:19-51 | once both guards pass, the lookup never returns nil: the scan always records some coverage |
| RangeQueryFacts.ScanFromStoredSpan | VideoPlayer/Logic/VideoCache.swift:28-49 | a scan whose first key is stored ends with the fast-path slice or with coverage starting at that key |
| RangeQueryFacts.AnsweredFromRelevant | VideoPlayer/Logic/VideoCache.swift:18-24 | past the guards, the answer is the scan of a non-empty, strictly ascending run of stored keys starting at or below the offset: the sorted keys up to the index `lastIndex` finds |
| RangeQueryFacts.HitStartsAtOffset | VideoPlayer/Logic/VideoCache.swift:15-56 | every hit's range starts exactly at the requested offset and ends within the request |
| RangeQueryFacts.ScanCombinedCoversRange | VideoPlayer/Logic/VideoCache.swift:38-48 | the bytes the loop appends are never fewer than the width of the coverage it records |
| RangeQueryFacts.HitCoversItsRange | VideoPlayer/Logic/VideoCache.swift:15-56 | every hit carries at least as many bytes as its claimed range and at most as many as were requested |
| RangeQueryFacts.ScanClosed | VideoPlayer/Logic/VideoCache.swift:28-49 | the coverage the loop records never shrinks, and every visited key at or below its upper end has a span ending there or before |
| RangeQueryFacts.ClosedBeyondRelevant | VideoPlayer/Logic/VideoCache.swift:20-24 | keys after the one `lastIndex` finds start above a coverage that ends short of that key's span |
| RangeQueryFacts.CoverageClosedAmongAll | VideoPlayer/Logic/VideoCache.swift:18-49 | coverage that the loop closes short of the request's end is not extended by any stored span, visited or not |
| RangeQueryFacts.HitIsLongestPrefix | VideoPlayer/Logic/VideoCache.swift:15-56 | a hit that stops short of the request's end stops where stored coverage stops: no span starting at or before the hit's end reaches past it |
| RangeQueryFacts.ReachingKeyIsRelevant | VideoPlayer/Logic/VideoCache.swift:20-24 | every span reaching the end of the request is among the keys the loop visits |
| RangeQueryFacts.CoveringKeyIsScanned | VideoPlayer/Logic/VideoCache.swift:18-24 | a span covering the request passes both guards and is among the keys the loop visits |
| RangeQueryFacts.ScanTowardsCovering | VideoPlayer/Logic/VideoCache.swift:28-49 | over non-overlapping spans, a loop whose keys include a span covering the request either returns that span's slice or breaks at a gap before it, with coverage ending before the offset |
| RangeQueryFacts.CoveredRequestIsExactOrTraps | VideoPlayer/Logic/VideoCache.swift:15-56 | over non-overlapping spans, a request inside one stored span gets exactly that span's bytes with range `offset..<offset+length`, or traps |
| RangeQueryFacts.CoveredBehindGapsTraps | VideoPlayer/Logic/VideoCache.swift:28-55 | example: spans `[0,10)`, `[20,30)`, `[40,100)` and `getData(50, 10)` trap, although the third span covers the request |
| RangeQueryFacts.FirstSpanCoversIsExact | VideoPlayer/Logic/VideoCache.swift:32-36 | when the lowest span covers the request, the answer is the fast-path slice with range `offset..<offset+length` |
| RangeQueryFacts.SingleSpanExact | VideoPlayer/Logic/VideoCache.swift:32-36 | a single stored span covering the request answers it exactly |
| RangeQueryFacts.SingleSpanMiss | VideoPlayer/Logic/VideoCache.swift:19-22 | a single stored span that starts after the offset or ends before the request does gives no data |
| RangeQueryFacts.InsertLastWriteWins | VideoPlayer/Logic/VideoCache.swift:62 | a second store at the same start replaces the first |
| RangeQueryFacts.AdjacentSpansCoalesce | VideoPlayer/Logic/VideoCache.swift:38-55 | example: spans `[0,50)` and `[50,100)` answer `getData(10, 80)`, which neither covers alone, with their joined bytes and range `10..<90` |
| RangeQueryFacts.GapStopsCoverage | VideoPlayer/Logic/VideoCache.swift:39-42 | example: spans `[0,50)` and `[80,120)` answer `getData(0, 100)` with the first span's bytes and range `0..<50`: the loop breaks at the gap |
| RangeQueryFacts.GapBeforeOffsetTraps | VideoPlayer/Logic/VideoCache.swift:51-55 | example: spans `[0,10)`, `[50,60)`, `[60,80)` and `getData(55, 20)` trap, because the coverage ends at 10, before the offset (the general fact is part of `Clip`'s contract) |
| RangeQueryFacts.SliceIsStored | VideoPlayer/Logic/VideoCache.swift:33-35 | the fast-path slice is the stored bytes at the requested positions |
| RangeQueryFacts.AppendContiguous | VideoPlayer/Logic/VideoCache.swift:38-48 | appending a span that starts exactly where the coverage ends keeps the combined bytes equal to the stored bytes position by position |
| RangeQueryFacts.ScanOverDisjoint | VideoPlayer/Logic/VideoCache.swift:28-49 | over non-overlapping spans, the loop returns stored bytes and accumulates coverage whose bytes are the stored ones |
| RangeQueryFacts.ScanRelevantOverDisjoint | VideoPlayer/Logic/VideoCache.swift:24-49 | the same for the scan started on the relevant keys, with coverage starting at or below the offset |
| RangeQueryFacts.ClipContiguous | VideoPlayer/Logic/VideoCache.swift:51-55 | clipping coverage that starts at or below the offset yields, on a hit, exactly `hi - lo` bytes, each the stored byte at its position |
| RangeQueryFacts.FinishBytesAreStored | VideoPlayer/Logic/VideoCache.swift:32-55 | both ways out of the loop report stored bytes for the claimed range |
| RangeQueryFacts.HitBytesAreStored | VideoPlayer/Logic/VideoCache.swift:15-56 | over non-overlapping spans, every byte of a hit is the stored byte at its position, and the data is as long as the claimed range |
| RangeQueryFacts.OverlapAppendsBoth | VideoPlayer/Logic/VideoCache.swift:38-48 | example: overlapping spans `[0,50)` and `[10,70)` with `getData(0, 70)` answer with the first 70 bytes of the two spans appended whole, and range `0..<70` |
| RangeQueryFacts.OverlapDuplicatesBytes | VideoPlayer/Logic/VideoCache.swift:38-48 | in that example, the byte reported at position 50 is not the byte stored at position 50 |
| VideoCaching.VideoCache.constructor | VideoPlayer/Logic/VideoCache.swift:11-13 | an empty cache and no playback times |
| VideoCaching.VideoCache.SpansOf | VideoPlayer/Logic/VideoCache.swift:16 | `cache[url]`: the spans stored for the url, or nothing |
| VideoCaching.VideoCache.GetData | VideoPlayer/Logic/VideoCache.swift:15-56 | the lookup loop computes exactly `Query` on the url's spans, and so answers with the longest contiguously covered prefix of the request (`HitIsLongestPrefix`) |
| VideoCaching.VideoCache.ScanRanges | VideoPlayer/Logic/VideoCache.swift:25-49 | the `for` loop over the relevant keys, with its `continue` and `break`, computes exactly `Scan` from no coverage and no bytes |
| VideoCaching.VideoCache.Store | VideoPlayer/Logic/VideoCache.swift:58-63 | only the url's spans change, by `Insert`; playback times are unchanged |
| VideoCaching.VideoCache.StorePlaybackTime | VideoPlayer/Logic/VideoCache.swift:65-67 | only the url's playback time changes |
| VideoCaching.VideoCache.GetPlaybackTime | VideoPlayer/Logic/VideoCache.swift:69-71 | the last time stored for the url, or nothing |
| RangeHeader.DigitChar | VideoPlayer/ResourceLoaderDelegate.swift:48 | a digit below ten maps to the decimal digit character of that value |
| RangeHeader.Decimal | VideoPlayer/ResourceLoaderDelegate.swift:48 | the interpolated offset is a non-empty string of decimal digits |
| RangeHeader.DecimalRoundTrip | VideoPlayer/ResourceLoaderDelegate.swift:48 | parsing the decimal rendering of an offset gives the offset back |
| RangeHeader.OpenEndedRange | VideoPlayer/ResourceLoaderDelegate.swift:48 | the header value `"bytes=\(offset)-"` |
| RangeHeader.OpenEndedRangeRoundTrip | VideoPlayer/ResourceLoaderDelegate.swift:48 | the `bytes=N-` header names exactly the offset it was built from |
| Loader.LoadingRequest.Respond | VideoPlayer/ResourceLoaderDelegate.swift:28 | `respond(with:)` records the bytes and advances `currentOffset` by their length |
| Loader.LoadingRequest.FinishLoading | VideoPlayer/ResourceLoaderDelegate.swift:31 | `finishLoading()` is recorded once; nothing else changes |
| Loader.LoadingRequest.FinishLoadingWithError | VideoPlayer/ResourceLoaderDelegate.swift:52 | `finishLoading(with:)` is recorded with its error; nothing else changes |
| Loader.ResourceLoaderDelegate.constructor | VideoPlayer/ResourceLoaderDelegate.swift:17-22 | the delegate starts with no queued requests and no download |
| Loader.ResourceLoaderDelegate.ShouldWaitForLoading | VideoPlayer/ResourceLoaderDelegate.swift:24-42 | the request is always accepted. On a hit with a data request it gets the bytes and its `currentOffset` moves past them. A hit whose end reaches the advanced offset plus the length is finished. Any other hit is queued, and a download from the hit's end starts if none is in flight. On a miss it is queued and a download from the requested offset starts if none is in flight |
| Loader.ResourceLoaderDelegate.Admit | VideoPlayer/ResourceLoaderDelegate.swift:27-39 | the same three branches, given the cache's answer |
| Loader.ResourceLoaderDelegate.StartDownloadIfNeeded | VideoPlayer/ResourceLoaderDelegate.swift:44-48 | no new download while one is in flight; otherwise one for `bytes=from-` |
| Loader.ResourceLoaderDelegate.DownloadCompleted | VideoPlayer/ResourceLoaderDelegate.swift:50-60 | with bytes: they are stored at the download's start, each queued request is answered and finished if the lookup now returns any data for it (a clipped part included) and kept otherwise, and the task is cleared. Without bytes: every queued request is finished once with the error and gets no bytes, the queue is emptied, and the task stays set |
| Loader.ResourceLoaderDelegate.ProcessPendingRequests | VideoPlayer/ResourceLoaderDelegate.swift:65-77 | the queue becomes `StillWaiting` of itself. Every queued request with a data request and a cache hit gets the bytes, its `currentOffset` moves past them, and it gets one `finishLoading()`. Every other request is untouched |
| Loader.ResourceLoaderDelegate.ServeEach | VideoPlayer/ResourceLoaderDelegate.swift:66-76 | the `filter` loop: the kept requests are `StillWaiting` of the queue, and each request is handled as above |
| Loader.ResourceLoaderDelegate.ServeQueued | VideoPlayer/ResourceLoaderDelegate.swift:67-75 | the closure: a request without a data request is dropped unanswered; one the cache answers is answered, finished and dropped; the rest are kept |
| Loader.Handled | VideoPlayer/ResourceLoaderDelegate.swift:69-72 | one request in the `filter`: looked up at its `requestedOffset`, and on any hit given the bytes and one `finishLoading()`, with `currentOffset` advanced past them |
| Loader.StillWaitingMembers | VideoPlayer/ResourceLoaderDelegate.swift:66-76 | a request stays queued exactly when it was queued, has a data request and the cache has no data for it |
| Loader.StillWaitingDistinct | VideoPlayer/ResourceLoaderDelegate.swift:66-76 | filtering a queue without duplicates keeps it without duplicates and adds nothing |
| Loader.StillWaitingAppend | VideoPlayer/ResourceLoaderDelegate.swift:66-76 | the filter distributes over concatenation (order is kept) |
| Loader.StillWaitingIdempotent | VideoPlayer/ResourceLoaderDelegate.swift:66-76 | processing the queue again without new bytes changes nothing |
| Loader.NewDownloadRangeParses | VideoPlayer/ResourceLoaderDelegate.swift:44-48 | a download started when none is in flight asks for bytes from exactly the requested offset |
| Loader.FreshHitFinishesOnlyWhenEmpty | VideoPlayer/ResourceLoaderDelegate.swift:28-31 | a fresh request on a hit is finished at once exactly when its length is 0, because `respond(with:)` advances `currentOffset` before the test |
| Loader.StillWaiting | VideoPlayer/ResourceLoaderDelegate.swift:66-76 | the queue the `filter` leaves, never longer than the queue it filters (what it keeps is `StillWaitingMembers`) |
| Loader.StartIfIdle | VideoPlayer/ResourceLoaderDelegate.swift:44-48 | a download is always in flight afterwards; one in flight is kept, otherwise a new one starts from the given offset |
| Loader.OffsetOf | VideoPlayer/ResourceLoaderDelegate.swift:27 | `dataRequest?.requestedOffset ?? 0` |
| Loader.LengthOf | VideoPlayer/ResourceLoaderDelegate.swift:25 | `dataRequest?.requestedLength ?? 0` |
| LruSpec.IndexOf | VideoPlayer/LRUCache.swift:18-25 | the dictionary lookup: the entry's position if the key is present (the first such), none exactly when no entry has the key |
| LruSpec.Promote | VideoPlayer/LRUCache.swift:95-103 | `moveToFront`: the number of entries and the capacity are kept, and the promoted entry is first. `count` is kept exactly when the entry was already the head or promotion keeps `count` |
| LruSpec.DropLast | VideoPlayer/LRUCache.swift:115-119 | `list.remove(tail)`: putting the old tail back on gives the old entries; `count` goes down by one |
| LruSpec.Get | VideoPlayer/LRUCache.swift:24-28 | `getValue`: a value comes back exactly when the key is present; the number of entries and the capacity are kept |
| LruSpec.Set | VideoPlayer/LRUCache.swift:30-43 | `setValue`: the new entry is first, unless the cache ends empty, which happens only when it was empty and the push put `count` over the capacity |
| LruSpec.Remove | VideoPlayer/LRUCache.swift:45-49 | `removeValue`: one entry fewer when the key is present; otherwise nothing changes |
| LruSpec.RemoveOldest | VideoPlayer/LRUCache.swift:51-57 | `removeOldest`: nothing exactly on an empty cache, which is left alone; otherwise the returned entry put back at the tail gives the old entries, and `count` goes down by one |
| LruSpec.MoveToFrontAt | VideoPlayer/LRUCache.swift:95-103 | promotion puts the entry first and keeps the others in their order |
| LruSpec.MoveToFrontKeepsKeysUnique | VideoPlayer/LRUCache.swift:95-103 | promotion keeps keys unique |
| LruSpec.RemoveAtKeepsKeysUnique | VideoPlayer/LRUCache.swift:105-113 | unlinking keeps keys unique |
| LruSpec.ValueOfMoveToFront | VideoPlayer/LRUCache.swift:24-33 | promotion changes no key's value |
| LruSpec.ValueOfRemoveAt | VideoPlayer/LRUCache.swift:47-48 | unlinking an entry unmaps its key and no other |
| LruSpec.GetReturnsStoredValue | VideoPlayer/LRUCache.swift:24-28 | `getValue` returns the stored value. An absent key changes nothing; a present one becomes the head; no key's value changes. With count-keeping promotion, `count` is unchanged |
| LruSpec.SetThenGet | VideoPlayer/LRUCache.swift:30-43 | after `setValue` the key maps to the new value and is the head (capacity at least 1) |
| LruSpec.SetKeepsOtherKeys | VideoPlayer/LRUCache.swift:30-63 | `setValue` leaves every other key's value alone, except the tail's key when a new key triggers eviction |
| LruSpec.ReplaceFrontKeepsOtherKeys | VideoPlayer/LRUCache.swift:32-33 | replacing the head's value keeps the other keys' values |
| LruSpec.PushKeepsOtherKeys | VideoPlayer/LRUCache.swift:35-37 | pushing a new key keeps the other keys' values |
| LruSpec.SetShape | VideoPlayer/LRUCache.swift:30-43 | an update keeps the number of entries; an insertion adds one, unless `count` then exceeds the capacity and the tail goes; `count` moves with it (minus the promotion drift) |
| LruSpec.RemoveUnmapsOnlyKey | VideoPlayer/LRUCache.swift:45-49 | `removeValue` unmaps that key only |
| LruSpec.RemoveOldestTakesTail | VideoPlayer/LRUCache.swift:51-57 | `removeOldest` returns nothing exactly on an empty cache, else a key with the value stored for it; that key alone is unmapped and keys stay unique |
| LruSpec.DecrementsStaysSound | VideoPlayer/LRUCache.swift:24-63 | as written, every operation keeps keys unique and `count` at most the number of entries |
| LruSpec.CountDriftOverflows | VideoPlayer/LRUCache.swift:24-113 | as written, with capacity 2: `set(a); set(b); get(a); set(c)` leaves three entries and evicts nothing |
| LruSpec.KeepingCountEvicts | VideoPlayer/LRUCache.swift:39-63 | with count-keeping promotion the same calls evict `b` and leave `[c, a]` |
| LruSpec.KeepsCountStaysBounded | VideoPlayer/LRUCache.swift:24-63 | with count-keeping promotion every operation keeps `count` equal to the number of entries, and that number within the capacity |
| Lru.Node.constructor | VideoPlayer/LRUCache.swift:72-74 | `Node.init`: a node holding the value, with no neighbours |
| Lru.CacheItem.constructor | VideoPlayer/LRUCache.swift:11-14 | a `CacheItem` holding the key and value |
| Lru.LinkedList.constructor | VideoPlayer/LRUCache.swift:77-79 | an empty list with `count` 0 |
| Lru.LinkedList.PushFront | VideoPlayer/LRUCache.swift:81-93 | a fresh node holding the value becomes the head (and the tail of an empty list); `count` goes up by one; the links stay valid |
| Lru.LinkedList.Remove | VideoPlayer/LRUCache.swift:105-113 | the node leaves the sequence, the rest stay linked in order, head and tail are repaired, its own links are cleared, and `count` goes down by one |
| Lru.LinkedList.Unlink | VideoPlayer/LRUCache.swift:107-112 | the pointer updates: the neighbours point at each other, head and tail skip the node, its links are cleared, and every other link is unchanged |
| Lru.UnlinkKeepsLinks | VideoPlayer/LRUCache.swift:107-108 | relinking the two neighbours leaves the remaining nodes linked both ways |
| Lru.LinkedList.MoveToFront | VideoPlayer/LRUCache.swift:95-103 | nothing changes for the head; any other node moves to the front with the others in order, and `count` ends one lower |
| Lru.LinkedList.RemoveLast | VideoPlayer/LRUCache.swift:115-119 | on a non-empty list, the tail is dropped and its value returned |
| Lru.LRUCache.constructor | VideoPlayer/LRUCache.swift:16-22 | an empty cache with the given capacity |
| Lru.LRUCache.ValidIsSound | VideoPlayer/LRUCache.swift:17-18 | the representation invariant gives unique keys and `count` at most the number of entries |
| Lru.LRUCache.DictionaryAgrees | VideoPlayer/LRUCache.swift:18 | the dictionary holds exactly the keys of the entries, each mapped to the node holding its value |
| Lru.LRUCache.PromoteEntry | VideoPlayer/LRUCache.swift:24-33 | `list.moveToFront` on the entry's node: the entries are promoted, the dictionary is unchanged |
| Lru.LRUCache.GetValue | VideoPlayer/LRUCache.swift:24-28 | the new state and the result are `LruSpec.Get` as written |
| Lru.LRUCache.SetFrontValue | VideoPlayer/LRUCache.swift:33 | the head's value is replaced in place |
| Lru.LRUCache.UpdateEntry | VideoPlayer/LRUCache.swift:31-33 | the existing-key branch computes `LruSpec.Set` |
| Lru.LRUCache.PushEntry | VideoPlayer/LRUCache.swift:35-37 | a new entry heads the list and is registered in the dictionary |
| Lru.LRUCache.InsertEntry | VideoPlayer/LRUCache.swift:34-41 | the new-key branch computes `LruSpec.Set` |
| Lru.LRUCache.SetValue | VideoPlayer/LRUCache.swift:30-43 | the new state is `LruSpec.Set` as written |
| Lru.LRUCache.UnlinkEntry | VideoPlayer/LRUCache.swift:45-63 | removing an entry's node and its dictionary key removes exactly that entry |
| Lru.LRUCache.RemoveValue | VideoPlayer/LRUCache.swift:45-49 | the new state is `LruSpec.Remove` |
| Lru.LRUCache.RemoveOldest | VideoPlayer/LRUCache.swift:51-57 | the new state and the result are `LruSpec.RemoveOldest` |
| Lru.LRUCache.RemoveLast | VideoPlayer/LRUCache.swift:59-63 | an empty cache is left alone; otherwise the tail entry is dropped |
| Players.TruncRem | VideoPlayer/Logic/PlayerManager.swift:25-45 | Swift's `%`: smaller than the divisor in magnitude, and never of the opposite sign to the dividend |
| Players.TruncDivision | VideoPlayer/Logic/PlayerManager.swift:25-45 | `TruncRem` is the remainder of truncating division: the dividend is the divisor times the truncated quotient plus the remainder |
| Players.Next | VideoPlayer/Logic/PlayerManager.swift:41 | `advanceToNext`'s new slot: from a valid slot it is a valid slot |
| Players.Prev | VideoPlayer/Logic/PlayerManager.swift:45 | `retreatToPrevious`'s new slot: from a valid slot it is a valid slot |
| Players.Slot | VideoPlayer/Logic/PlayerManager.swift:25-26 | the slot `preparePlayer` fills: a valid index for every offset from -3 on |
| Players.NextWraps | VideoPlayer/Logic/PlayerManager.swift:40-42 | advancing moves to the following slot, and from the last slot to the first |
| Players.PrevWraps | VideoPlayer/Logic/PlayerManager.swift:44-46 | retreating moves to the preceding slot, and from the first slot to the last |
| Players.RetreatUndoesAdvance | VideoPlayer/Logic/PlayerManager.swift:40-46 | `retreatToPrevious` after `advanceToNext` restores the slot |
| Players.AdvanceUndoesRetreat | VideoPlayer/Logic/PlayerManager.swift:40-46 | `advanceToNext` after `retreatToPrevious` restores the slot |
| Players.AdvancedIsShifted | VideoPlayer/Logic/PlayerManager.swift:40-42 | `n` advances shift the slot by `n` modulo three |
| Players.FullTurnIsIdentity | VideoPlayer/Logic/PlayerManager.swift:40-42 | three advances are the identity |
| Players.SlotNeighbours | VideoPlayer/Logic/PlayerManager.swift:20-46 | offset 0 prepares the current player; offsets 1 and -1 prepare the slots that advance and retreat reach |
| Players.FarBackwardOffsetTraps | VideoPlayer/Logic/PlayerManager.swift:25-26 | from slot 1, offset -5 gives slot -1, which traps when indexing, while -4 still gives slot 0 |
| Players.PlayerManager.constructor | VideoPlayer/Logic/PlayerManager.swift:15-18 | three distinct fresh players, and the middle one is current |
| Players.PlayerManager.CurrentPlayer | VideoPlayer/Logic/PlayerManager.swift:20-22 | the player that `preparePlayer(at: 0)` prepares |
| Players.PlayerManager.PreparePlayer | VideoPlayer/Logic/PlayerManager.swift:24-38 | the player at the target slot plays an item for the url and no longer waits to minimise stalling. A url without a delegate gets a fresh one, registered and set on the asset. A registered url leaves the registry unchanged, and its asset gets no delegate |
| Players.PlayerManager.AdvanceToNext | VideoPlayer/Logic/PlayerManager.swift:40-42 | only the current slot changes, to the next one round the ring |
| Players.PlayerManager.RetreatToPrevious | VideoPlayer/Logic/PlayerManager.swift:44-46 | only the current slot changes, to the previous one round the ring |
| Players.AdvanceThenRetreat | VideoPlayer/Logic/PlayerManager.swift:40-46 | on a manager, advancing and then retreating leaves the current slot where it was |
| Players.RetreatThenAdvance | VideoPlayer/Logic/PlayerManager.swift:40-46 | on a manager, retreating and then advancing leaves the current slot where it was |

## Left out

- The UI layer (view controllers, cells, layout, thumbnail loading), JSON decoding of the video list, and AVFoundation and URLSession themselves. Players, assets, loading requests and downloads are small records or classes that record what the core does to them.
- Concurrency. The delegate runs on a global queue and the download callback on another. Requests and download completions are modelled as atomic events in sequence, and `[weak self]` is taken to be alive.
- `Int64` and `Int` overflow. Offsets, lengths and counts are unbounded integers.
- `CMTime` is a value and timescale pair that the model stores and returns without interpreting. Transport errors are an uninterpreted code.
- Loader.ResourceLoaderDelegate.ShouldWaitForLoading, Loader.ResourceLoaderDelegate.DownloadCompleted, Loader.ResourceLoaderDelegate.ProcessPendingRequests, Loader.ResourceLoaderDelegate.ServeEach, Loader.ResourceLoaderDelegate.ServeQueued: each requires that no lookup it makes traps (`Traps` / `ServingTraps`). Where the lookup traps, the Swift program crashes; `RangeQueryFacts.GapBeforeOffsetTraps` and `RangeQueryFacts.CoveredBehindGapsTraps` show such inputs.
- Loader.ResourceLoaderDelegate.ShouldWaitForLoading: requires that the request is not already queued. The engine hands each request over once.
- A request without a data request is modelled as the source treats it: looked up at offset 0 with length 0 on arrival, and dropped unanswered by `processPendingRequests`.
- Lru.LinkedList.Remove, Lru.LinkedList.MoveToFront: take the node's position in `nodes` as a ghost argument. They require the node to be in the list, as every caller in the source guarantees.
- Lru.LinkedList.RemoveLast: requires a non-empty list. On an empty list the source calls `fatalError`.
- Lru.CacheItem: the source's `CacheItem` struct is stored by value in its node and updated through it (`existingNode.value.value = value`). It is modelled as a class owned by exactly one node, whose `value` field the cache updates. `Node.value` is a constant, because the list never stores into it.
- Players.PlayerManager.PreparePlayer: requires the target slot to be non-negative. A more negative slot traps when indexing in the source (`Players.FarBackwardOffsetTraps`). The `players` array is a constant, because the source never reassigns it.
- Helper members (`Admit`, `ScanRanges`, `Unlink`, `ServeEach`, `ServeQueued`, `PromoteEntry`, `PushEntry`, `UnlinkEntry`, `UpdateEntry`, `InsertEntry`, `SetFrontValue`) split the source's methods into steps. They do not correspond to separate Swift functions.

## Findings

| source | as written | input that shows it | evidently intended | confidence | as-written member | corrected member |
|---|---|---|---|---|---|---|
| VideoPlayer/LRUCache.swift:95-106 | `moveToFront` calls `remove`, whose deferred `count -= 1` is never undone when the node is relinked. Every promotion of a non-head entry lowers `count`, so the bound check at line 39 lets the cache grow past its capacity | capacity 2: `setValue(1, "a")`, `setValue(2, "b")`, `getValue("a")`, `setValue(3, "c")` leaves three entries and evicts nothing | promotion keeps `count`, so `count` equals the number of entries and `c` evicts `b` | high (not executed) | LruSpec.CountDriftOverflows | LruSpec.KeepsCountStaysBounded |

The class `Lru.LRUCache` follows the code as written (`Decrements`). The count-keeping variant is the `KeepsCount` promotion of the same `LruSpec` functions. `LruSpec.KeepingCountEvicts` replays the input above on it.
