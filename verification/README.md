# Verified models of the workspace backend

The backend runs an AI agent for each conversation in its own container. This project models the parts of
it that keep state between steps or translate data between two formats, and proves what they promise.

| File | Part of the system |
|---|---|
| `LeaseLock.dfy`, `LeaseRenewal.dfy` | the Redis lease that serialises the runs of a conversation, and its renewal while a run streams |
| `Allocation.dfy` | creators, acquirers and cleanups of containers as a transition system over their awaits |
| `Workspace.dfy` | the orchestrator, the warm pool and the garbage collector as operations on the stored indexes |
| `RateLimit.dfy` | the sliding-window script, run by Redis's clock, against the history of accepted requests |
| `SseStream.dfy` | the event stream from the container: printers, buffer loop and parser |
| `ChunkedCoding.dfy` | the chunked response body that the credential proxy writes, and a decoder after section 7.1 of RFC 9112 |
| `Base64.dfy`, `FileTransfer.dfy` | concurrent file transfers into a container by shell commands |
| `OpenApiSchema.dfy`, `SchemaExpansion.dfy` | `$ref` resolution and schema merging of the OpenAPI tool translation, and the expansion of schemas as a relation that it computes |
| `PercentEncoding.dfy`, `PathTemplate.dfy` | percent-encoded path parameters in templates with any braces |
| `McpRouting.dfy` | server configurations rewritten for the container, and the rules and routes of the proxy |
| `ClientUrl.dfy`, `McpCall.dfy` | what an HTTP client makes of a URL, and a tool call from the container through the proxy's request line to the request that goes out |
| `McpHeaders.dfy` | the header fields of that request, with names compared without regard to case, and its Host |
| `ToolPath.dfy` | which arguments keep the segments of a path template through the client |
| `Retry.dfy`, `CircuitBreaker.dfy` | retry with backoff, and the circuit breaker around it |
| `ContextAccounting.dfy` | context tokens: the event, the stored flag and the next admission check |
| `SheetPaging.dfy` | reading a spreadsheet page by page in the presence of merged cells |
| `Wrappers.dfy`, `Sequences.dfy`, `Bytes.dfy`, `Text.dfy` | shared types and facts about sequences and text |

Two styles are used. Where tasks interleave (the lock, the allocation of containers, file transfers) the
system is a state with a total step function, and theorems quantify over all lists of actions. Where the
code updates one object step by step, the model is a class or a method with loops whose contract ties the
new state to a function of the old one, and lemmas say what that function means.

What the proofs found about the code:

- `extend` replaces the time to live, although its documentation calls the argument time to add. It moves the
  deadline earlier exactly when the new time to live ends sooner (`LeaseLock.ExtendShortensIff`). In a run only the
  first renewal can do so, and it does exactly if it comes less than 300 s after the acquisition
  (`LeaseRenewal.FirstRenewalShortensIff`, `LeaseRenewal.LaterRenewalsNeverShorten`). The lock survives every stream
  exactly when the gaps between events leave room for both deadlines (`LeaseRenewal.RenewalBound`).
- A recovery that cannot allocate a container leaves a Redis hash without a container id. The next requests
  of that conversation fail on it until it expires an hour later (`Workspace.RequestAfterFailedRecovery`).
- The garbage collector means to spare unowned containers below a minimum age. It does so exactly for containers
  whose creation time Docker reports as a number (`Workspace.YoungOrphanSurvivesIff`). The inspection that the
  listing uses reports a date text, so none of them is spared (`Workspace.InspectedOrphanIsDoomed`).
- A conversation keeps a healthy container with the status it had. One that is still draining, because an earlier
  collection could not remove it, is kept too and goes in the next collection, as one past the absolute limit does; no
  other container that was just given does (`Workspace.CollectAfterRequest`).
- The maximum pool size holds only with a single creator (`Allocation.MaximumNeedsSingleCreator`).
- File transfers are keyed by base name and write nothing for an empty file. They deliver exactly when base
  names are distinct and no file is empty (`FileTransfer.DeliveryCondition`).
- The limiter counts set members. Requests with equal members count once
  (`RateLimit.CountIsExactIffMembersDistinct`), so with a limit of two or more any number of them passes
  (`RateLimit.CollidingMembersExceedLimit`).
- The limiter's timestamps are the middleware's and the key's expiry is Redis's. The expiry can hide an acceptance
  that a window still holds exactly from requests that lag more than it did (`RateLimit.ExpiryCanHideIff`), and then
  a window can hold more acceptances than the limit (`RateLimit.ExpiryExceedsLimit`). Without such requests neither
  pruning nor expiry can be observed (`RateLimit.DecisionIsHistory`).
- The event stream carries event kinds that are one line without surrounding whitespace, and no others
  (`SseStream.RoundTrip`).
- Path parameters are replaced one after the other. That equals replacing them at once, for all arguments, orders and
  repetitions of the template's own names, exactly when behind no literal opening brace the template can spell one of
  those names up to a closing brace (`PathTemplate.OwnNamesSubstituteIff`). A template that is not nested meets this:
  no literal opening brace is followed by word characters and at least one placeholder up to a literal closing brace.
  "{{a}}{a}" is nested and fails (`PathTemplate.RepeatedNestedFails`), "{{a}b}" is nested and harmless
  (`PathTemplate.HarmlessNested`). Other stray braces do no harm.
- Encoded values have no slash, but a value "." or ".." that fills a segment is a dot segment, which the client folds.
  The segments of a template are requested as they are filled exactly if none becomes a dot segment
  (`ToolPath.RequestedSegmentsIff`).
- A `$ref` is a URI fragment, and the code does not decode it. A reference in the fragment form of RFC 6901 reaches its
  target in every specification exactly if its keys need no percent-encoding (`OpenApiSchema.FragmentReachesTargetIff`),
  so not for a path like "/a/{id}".
- A server name goes into a URL as it is, and nothing decodes it again. A proxied call arrives under its own name
  exactly if the client leaves the name alone, the path does not climb above its beginning, and something of it is
  left in front of a query (`McpCall.CallIsOwnIff`). Calls of a server named "my server" are answered 404
  (`McpCall.SpaceInNameIsNotFound`).
- The proxy's dictionaries compare header names with their case, servers without. A resolved header is the only field
  of its name exactly if no passed header of the container, no "Host" and no other resolved header has the name in
  another case (`McpHeaders.OnlyFieldIff`): "accept" arrives beside the container's "Accept"
  (`McpHeaders.AcceptArrivesTwice`), and "host" makes every call fail (`McpHeaders.LowerCaseHostIsRefused`).
- The proxy's Host has no port and no brackets. It is that of a direct call exactly if the base URL names no port other
  than its scheme's and no IPv6 literal (`McpHeaders.HostIsDirectIff`); "http://h:8443" loses its port
  (`McpHeaders.PortIsLost`).
- Two servers with one name share the route of the last one (`McpRouting.DuplicateNameRoutes`).

For sheet paging the result is positive: the loader empties the cells that merged ranges cover, and therefore pages of
any size concatenate to one full read, for every workbook (`SheetPaging.PagesConcatenate`).

## Model

| member | source | states |
|---|---|---|
| LeaseLock.LeaseSafety | app/infrastructure/distributed_lock.py:64-79 | In every run with delayed, lost or reordered requests, stale clients and any advance of the clock, a client that has not released and is within the time counted from sending its last successful SET or extend owns the key, so there is at most one |
| LeaseLock.OthersCannotDislodge | app/infrastructure/distributed_lock.py:64-79 | No delivered request of another client changes the key or ends the lease of a client that holds it |
| LeaseLock.StaleClientsChangeNothing | app/infrastructure/distributed_lock.py:178-203 | Over any run in which only clients other than the owner act, with requests sent before or during it, the key stays as it is if none of them sends a SET or if the key has not expired by the end |
| LeaseLock.ExtendShortensIff | app/infrastructure/distributed_lock.py:73-79 | An extend by the owner moves the deadline earlier if and only if now plus the new time to live is before the old deadline |
| LeaseLock.ExtendCanShorten | app/infrastructure/distributed_lock.py:230-241 | A schedule that shows it: a 900 s lease extended after 61 s by 600 s ends at 661 s |
| LeaseLock.ApplyKeepsInv | app/infrastructure/distributed_lock.py:120-165 | Every action of clients, network and clock keeps: pending requests lie in the past, pending releases belong to released clients, every holder owns the key until at least the end of its lease |
| LeaseLock.ServeKeepsInv | app/infrastructure/distributed_lock.py:64-79 | The same for the execution of one command by Redis |
| LeaseLock.RunKeepsInv | app/infrastructure/distributed_lock.py:120-165 | The same over any list of actions |
| LeaseLock.LockKey.SetNx | app/infrastructure/distributed_lock.py:131-136 | SET NX PX succeeds exactly on a free key, which then belongs to the token |
| LeaseLock.LockKey.EvalRelease | app/infrastructure/distributed_lock.py:64-70 | Compare-and-delete: afterwards the token never owns the key, and a foreign key is untouched |
| LeaseLock.LockKey.EvalExtend | app/infrastructure/distributed_lock.py:73-79 | Compare-and-pexpire: it sets the deadline of an owned key and leaves any other as it was |
| LeaseLock.StopTurn | app/infrastructure/distributed_lock.py:128-159 | The first turn of the acquire loop that is past the deadline, finds Redis failing or finds the key free; all earlier turns are none of these |
| LeaseLock.Acquire | app/infrastructure/distributed_lock.py:98-165 | The lock is taken exactly at that turn if it is in time and Redis is up, with the whole time to live; otherwise the error says which of the two failed and the key is as the others left it |
| LeaseRenewal.RenewalBound | app/services/execute_service.py:286-298 | For streams of any length with gaps of at most G, the run's token is in Redis at every event if and only if setup + 60 s + G < 900 s and 60 s + G < 600 s |
| LeaseRenewal.SlackKeepsLease | app/services/execute_service.py:286-298 | From any point with enough time left, the lock survives all later events of a stream with bounded gaps |
| LeaseRenewal.SilenceLosesLease | app/services/execute_service.py:286-298 | With too little time left after a renewal, there is a stream within the gaps at one of whose events the lock is gone |
| LeaseRenewal.FirstRenewalShortensIff | app/services/execute_service.py:286-298 | The first renewal of a run shortens its lease if and only if it comes less than 300 s after the acquisition |
| LeaseRenewal.LaterRenewalsNeverShorten | app/services/execute_service.py:286-298 | After a renewal no event of any later stream moves the deadline earlier |
| LeaseRenewal.RelayEvents | app/services/execute_service.py:252-298 | The event loop leaves the key and the renewal time that folding single events gives, and reports whether the token was there at every event |
| Allocation.ExclusiveAllocation | app/services/container/orchestrator.py:87-119 | In every reachable state under every interleaving, a container has at most one of: a pool position, a creator, an acquirer, a conversation |
| Allocation.ForwardIndexIsInjective | app/services/container/orchestrator.py:397-404 | No two conversations have the same container, and no assigned container is in the pool |
| Allocation.StepKeepsExclusive | app/services/container/warm_pool.py:94-134 | Every step between two awaits keeps claims exclusive and below the next fresh id |
| Allocation.ClaimsComeFrom | app/services/container/warm_pool.py:150-200 | A claim after a step is on the container just made, or goes back to a claim on the same container before the step |
| Allocation.OriginIsInjective | app/services/container/warm_pool.py:94-134 | No two claims after a step go back to the same claim before it |
| Allocation.PoolBound | app/services/container/warm_pool.py:157-186 | With at most K creators past the size check, pool length plus creators never exceeds max_size - 1 + K |
| Allocation.MaximumNeedsSingleCreator | app/services/container/warm_pool.py:157-186 | No reachable pool is longer than max_size if and only if there is at most one creator at a time |
| Allocation.TwoCreatorsOverfill | app/services/container/warm_pool.py:157-186 | A schedule of two creators that reaches max_size + 1 |
| Allocation.StepSizes | app/services/container/warm_pool.py:157-186 | Pool length plus creators grows only by a creator that found the pool below max_size |
| Allocation.CreatorsArePushed | app/services/container/warm_pool.py:136-148 | While only successful creators run, pool length plus creators still at work is the old length plus the creators that passed the check |
| Allocation.AcquirerIsServed | app/services/container/warm_pool.py:77-134 | An acquirer alone takes the first pooled container with an info hash off the pool and records it in both indexes; nothing else changes |
| Allocation.AcquirerFallsBack | app/services/container/warm_pool.py:117-134 | With an empty pool it records a container made for it |
| Allocation.UnhealthyIsSkipped | app/services/container/warm_pool.py:94-116 | An unhealthy container is discarded with its info hash and the acquirer goes on |
| Allocation.CreatorIsPushed | app/services/container/warm_pool.py:150-200 | A creator alone below the maximum appends one new container with its info hash |
| Allocation.ReplenishReachesMinimum | app/services/container/warm_pool.py:136-148 | With concurrent successful creators and min_size <= max_size, no needed creator is refused, and when all are through the pool has exactly min_size entries |
| Workspace.Workspace.GetOrCreate | app/services/container/orchestrator.py:77-138 | A healthy container of the conversation is kept as it was, active now, with a renewed entry and nothing else changed; otherwise the conversation gets the first usable pooled container with its creation time or one made now, ready and never served, or none, exactly when an allocation is possible, and the container it had is gone with its proxy; a hash without container id makes the call fail and changes nothing; other conversations are untouched. What is given is to be destroyed if and only if it is past the absolute limit or was kept while draining |
| Workspace.CollectAfterRequest | app/services/container/gc.py:82-171 | Across a request and a collection at once: the container that was given stays if and only if it is within the absolute limit and was not kept while draining |
| Workspace.Workspace.Allocate | app/services/container/orchestrator.py:108-119 | The allocation succeeds if and only if there is a container to give and its proxy starts; the entry is then written in both indexes with the first usable pooled container or one made now, which was never served before |
| Workspace.Workspace.Execute | app/services/container/orchestrator.py:140-289 | Both indexes stay mutual inverses over a run with any end, whether or not the container is still recorded; after a timeout, a crash or a proxy that does not come back the old container is gone and the conversation has a complete entry if and only if an allocation is possible; after any other end if and only if the entry was there and the run ended before it expired |
| Workspace.Workspace.RunUntil | app/services/container/orchestrator.py:159-165 | The run starts by renewing the entry, which is still there at its end if and only if less than an hour has passed, and complete if and only if it was recorded at the start |
| Workspace.Workspace.Recover | app/services/container/orchestrator.py:189-204 | After cleanup and re-acquire the old container is gone with its proxy and its reverse entry, and the conversation has a container that never served any conversation, or, when none can be allocated, a hash without container id |
| Workspace.RequestAfterFailedRecovery | app/services/container/orchestrator.py:284-289 | After a failed recovery the next request fails with a KeyError if and only if it comes before the hash expires, whatever is available by then |
| Workspace.Workspace.CleanupContainer | app/services/container/orchestrator.py:418-434 | Both entries and the proxy are gone, the container too unless Docker cannot remove it; the indexes stay mutual inverses |
| Workspace.Workspace.UpdateRedis | app/services/container/orchestrator.py:406-416 | An existing entry is renewed in both indexes; a missing one becomes a hash without container id |
| Workspace.Workspace.SaveToRedis | app/services/container/orchestrator.py:397-404 | Both indexes get the pair with one deadline and stay mutual inverses |
| Workspace.Workspace.AdvanceTo | app/services/container/config.py:135-137 | Entries vanish at their deadlines; forward and reverse entries of one assignment vanish together |
| Workspace.Workspace.PopUsable | app/services/container/warm_pool.py:94-116 | The first pooled container with a live info hash and a healthy agent is returned and the rest of the pool stays in order; everything before it has lost its info and, unless Docker cannot remove it, its container |
| Workspace.DroppedAreUnusable | app/services/container/warm_pool.py:94-116 | What is skipped is exactly the containers before the first one with an info hash and a healthy agent |
| Workspace.Workspace.Acquire | app/services/container/warm_pool.py:77-134 | The first usable pooled container with the time it was made at, or a new one made now; it is not in the pool and never served a conversation; it fails only if the pool has no usable one and creation fails |
| Workspace.Workspace.CreateAndAdd | app/services/container/warm_pool.py:150-200 | One fresh container is appended with its info, which lives for half an hour, if and only if the pool is below max_size and one of the three attempts comes up; else the pool is unchanged; what stays behind are exactly the containers of failed attempts that Docker cannot remove |
| Workspace.Workspace.Replenish | app/services/container/warm_pool.py:136-148 | Alone, it keeps the pool as a prefix, never passes the smaller of min_size and max_size, and reaches it when every creator succeeds |
| Workspace.Workspace.Drain | app/services/container/warm_pool.py:220-233 | The pool is empty, and exactly the infos and the removable containers of what was in it are gone |
| Workspace.Workspace.GracefulDestroy | app/services/container/gc.py:173-207 | The container is drained and forgotten with its proxy; one that Docker cannot remove stays recorded as draining |
| Workspace.Workspace.CollectOne | app/services/container/gc.py:82-148 | One listed container is swept if and only if it is doomed; the cycle goes on unless an unowned container cannot be removed |
| Workspace.Workspace.Collect | app/services/container/gc.py:75-151 | Of the containers handled, exactly the doomed ones lose proxy, container and both entries, the stuck ones stay as draining; the cycle ends early exactly at the first unowned container that cannot be removed |
| Workspace.FullCycle | app/services/container/gc.py:75-151 | In a cycle in which Docker removes every container, exactly the containers that were not doomed survive, each rightly kept; a second cycle at once finds nothing to destroy; a young unowned container survives if and only if its creation time was reported as a number |
| Workspace.CollectionIsComplete | app/services/container/gc.py:82-171 | A cycle dooms exactly what is not rightly kept: held by the pool; or assigned, not draining and within both limits; or unowned and reported as young by a number. On the swept state every survivor is rightly kept and nothing is doomed any more |
| Workspace.DoomedIff | app/services/container/gc.py:82-171 | The judgement on one listed container in these terms |
| Workspace.YoungOrphanSurvivesIff | app/services/container/gc.py:124-139 | An unowned container below the minimum age is spared if and only if Docker reports its creation time as a number |
| Workspace.InspectedOrphanIsDoomed | app/services/container/gc.py:127-139 | In a listing by inspection, with creation times as date texts, every unowned container is doomed whatever its age |
| Workspace.SweepKeepsDoomed | app/services/container/gc.py:153-171 | Sweeping other containers does not change the judgement on one |
| Workspace.SweepKeepsMutual | app/services/container/gc.py:173-207 | A sweep of any set of containers keeps the indexes mutual inverses |
| Workspace.SaveKeepsMutual | app/services/container/orchestrator.py:397-404 | Recording a fresh pair keeps the indexes mutual inverses |
| Workspace.RefreshKeepsMutual | app/services/container/orchestrator.py:406-416 | Renewing a pair in both indexes keeps them mutual inverses |
| RateLimit.DecisionIsHistory | app/middleware/rate_limit.py:60-87 | After any run with nondecreasing timestamps in which no request lags more than the last one accepted before it, a request is accepted if and only if fewer than limit different members were accepted in (now - window, now]; with distinct members this is the number of acceptances and remaining is exact; pruning and EXPIRE are then not observable |
| RateLimit.DecisionIsRemembered | app/middleware/rate_limit.py:60-87 | Whatever the lags: the same with the acceptances since the key last expired by Redis's clock |
| RateLimit.ExpiryHidesIff | app/middleware/rate_limit.py:76-76 | For a request, what survives the expiry differs from the history inside the window if and only if the key has expired and the window still holds the last acceptance |
| RateLimit.ExpiryCanHideIff | app/middleware/rate_limit.py:175-181 | A request of a given lag can find an acceptance hidden, at some timestamp not before it, if and only if its lag is larger than that of the accepted request |
| RateLimit.ExpiryExceedsLimit | app/middleware/rate_limit.py:73-77 | With limit 1, any window and any lag up to it: two acceptances with distinct members and timestamps in order lie in one window |
| RateLimit.RememberedWindow | app/middleware/rate_limit.py:67-76 | In such a run the acceptances since the last expiry are the history, as far as the window reaches |
| RateLimit.NoWindowExceedsLimit | app/middleware/rate_limit.py:60-87 | With distinct members and no request that lags more than the last one accepted before it, no half-open window of the configured length, wherever it lies, holds more than limit acceptances |
| RateLimit.RetryAfterIsExact | app/middleware/rate_limit.py:79-85 | The hint r of a rejection is at least 1; with nothing accepted in between a request r seconds later is accepted, and one r - 1 seconds later is rejected unless it lags more than the last accepted one |
| RateLimit.CountIsExactIffMembersDistinct | app/middleware/rate_limit.py:70-77 | The count equals the number of acceptances in the window if and only if their members are pairwise distinct |
| RateLimit.CollidingMembersExceedLimit | app/middleware/rate_limit.py:73-77 | For every limit and number of requests with one clock value and one member, the acceptances exceed the limit if and only if the limit is at least two and there are more requests than it allows, or the limit is negative |
| RateLimit.CollidingRun | app/middleware/rate_limit.py:67-77 | What the key holds after such a run and how many of the requests were accepted |
| RateLimit.PrunedIsWindow | app/middleware/rate_limit.py:67-71 | What the script counts after pruning is the part inside the window of what survives the expiry |
| RateLimit.ScriptKeepsAgreement | app/middleware/rate_limit.py:60-87 | One call, with its own timestamp and Redis's, keeps the stored set and its deadline in agreement with the acceptances since the last expiry |
| RateLimit.RunAgrees | app/middleware/rate_limit.py:60-87 | After any run with nondecreasing timestamps, whatever the lags, key and deadline agree with the acceptances since the last expiry |
| RateLimit.Ceil | app/middleware/rate_limit.py:83-83 | The least integer not below the number |
| RateLimit.Limiter.Eval | app/middleware/rate_limit.py:60-87 | The script decides by the acceptances since the last expiry that the window holds, and records an accepted request |
| RateLimit.Limiter.CheckRateLimit | app/middleware/rate_limit.py:165-197 | The middleware's answer in terms of the recorded history; a call that raises lets the request pass, and records it as far as the limit allows if the script had run |
| SseStream.RoundTrip | app/services/execute_service.py:479-499 | For every event list and every chunking of its printed text, the reader yields exactly those events and an empty buffer if and only if every kind is one line without surrounding whitespace |
| SseStream.ReadInPortions | app/services/execute_service.py:485-491 | For any text whatever, reading it in portions with the kept rest is reading the whole |
| SseStream.FrameParses | app/services/execute_service.py:764-783 | A printed frame parses to its kind and data |
| SseStream.ParsedFrameIs | app/services/execute_service.py:764-783 | What any frame parses to: nothing without data; otherwise the stripped kind of its last event line, or "message", and its last data line, decoded if it is JSON and as text if not |
| SseStream.StripIs | app/services/execute_service.py:764-783 | Stripping takes away the whitespace at both ends and nothing else |
| SseStream.ParsedFrameIsClean | app/services/execute_service.py:769-771 | Every kind that the parser returns, from any frame, is one line without surrounding whitespace |
| SseStream.ParsedKindIsClean | app/services/execute_service.py:769-771 | The same over the lines of a frame |
| SseStream.FrameIsSolid | workspace_agent/sdk_client.py:304-306 | The blank line after a printed frame is its first one and survives concatenation |
| SseStream.SolidFramesAreRead | app/utils/streaming.py:553-567 | A list of printed frames is read as the list of their events, with nothing left over |
| SseStream.FirstBlankLineIsUnique | app/services/execute_service.py:489-490 | A blank line with none before it is where the buffer is split |
| SseStream.ReadLeavesNoFrame | app/services/execute_service.py:489-490 | The buffer that is left never contains a complete frame |
| SseStream.ParseSseEvent | app/services/execute_service.py:764-783 | The line loop returns what the specification of a frame says, None for a frame without data |
| SseStream.DrainFrames | app/services/execute_service.py:488-499 | The inner loop reads all complete frames of the buffer in order |
| SseStream.StreamFromContainer | app/services/execute_service.py:479-499 | The buffer loop over any chunks returns what reading the concatenated text returns |
| ChunkedCoding.DecodeEncode | app/services/proxy/credential_proxy.py:360-369 | Decoding the emitted body followed by any bytes returns the concatenation of all upstream chunks, empty ones included, and exactly those bytes |
| ChunkedCoding.EmptyFrameEndsBody | app/services/proxy/credential_proxy.py:363-363 | An empty chunk written as a frame would end the body there, which is why it is skipped |
| ChunkedCoding.ChunkIsRead | app/services/proxy/credential_proxy.py:363-366 | One frame is read as its chunk, whatever follows |
| ChunkedCoding.LastChunkIsRead | app/services/proxy/credential_proxy.py:368-368 | The last chunk ends the body and leaves what follows |
| ChunkedCoding.SizeLineIsRead | app/services/proxy/credential_proxy.py:364-364 | A size line is read as the number its digits denote |
| ChunkedCoding.Hex | app/services/proxy/credential_proxy.py:364-364 | The digits printed for a length are hexadecimal, at least one, and denote that length |
| ChunkedCoding.HexIsShortest | app/services/proxy/credential_proxy.py:364-364 | The digits are lower case, without a leading zero |
| ChunkedCoding.LineEndsAre | app/services/proxy/credential_proxy.py:364-368 | The line end and the last chunk as characters |
| ChunkedCoding.ConcatOfMore | app/services/proxy/credential_proxy.py:357-359 | A further chunk is appended to the concatenation, none is left out |
| ChunkedCoding.NoDigitNoChunk | app/services/proxy/credential_proxy.py:364-364 | Text that does not start with a hexadecimal digit is not read as a chunk |
| ChunkedCoding.ExtendedSizeLine | app/services/proxy/credential_proxy.py:364-364 | A size line is read with or without an extension behind a semicolon, and with nothing else (section 7.1.1 of RFC 9112) |
| ChunkedCoding.TrailerIsSkipped | app/services/proxy/credential_proxy.py:368-368 | Trailer lines are read up to the empty one (section 7.1.2 of RFC 9112) |
| ChunkedCoding.RelayChunked | app/services/proxy/credential_proxy.py:360-369 | The writes of the loop append the chunked coding of the upstream chunks |
| ChunkedCoding.RelayRaw | app/services/proxy/credential_proxy.py:355-359 | The writes of the loop append the concatenation of the upstream chunks |
| ChunkedCoding.RelayBody | app/services/proxy/credential_proxy.py:348-369 | The body is chunked if and only if its length was not announced |
| Base64.DecodeEncode | app/services/workspace/file_sync.py:285-285 | Decoding inverts encoding for all octets (section 4 of RFC 4648) |
| Base64.EncodedTextIsShellSafe | app/services/workspace/file_sync.py:285-297 | The encoded text has no single quote, and it is empty if and only if the data is |
| Base64.EncodedAre | app/services/workspace/file_sync.py:285-285 | Every character is the letter of its six bits of the group of three octets, or the padding for what is missing, and there are four for each group begun (section 4 of RFC 4648) |
| Base64.LettersAre | app/services/workspace/file_sync.py:285-285 | The letters are those of table 1 of RFC 4648, in its order, and no others are read |
| FileTransfer.NonInterference | app/services/workspace/file_sync.py:270-318 | For any number of transfers, interleaving, faults (commands that exit with an error and calls that raise) and files there before: a finished transfer has put exactly its own bytes at its destination, no finished or failed one leaves its temporary file, and one that ended without cleaning up had a call that raised or two commands that went wrong |
| FileTransfer.AbandonedOnlyByFaults | app/services/workspace/file_sync.py:299-318 | A transfer that cleans up had a fault; one that ended without cleaning up had a call that raised or at least two faults |
| FileTransfer.RaisedCommandIs | app/services/workspace/file_sync.py:299-318 | A call that raises leaves the files as after the command, if it had run, or as after a failed one |
| FileTransfer.FailedCommandIs | app/services/workspace/file_sync.py:299-318 | A command that exits with an error may leave something in the file it writes, and is cleaned up after |
| FileTransfer.UndecodableIs | app/services/workspace/file_sync.py:299-318 | A decode without temporary file writes nothing, and one that cannot read it may leave a part of the file; both are cleaned up after |
| FileTransfer.FaultsAreCounted | app/services/workspace/file_sync.py:299-318 | The faults of a transfer are its commands that did not work |
| FileTransfer.DeliveryCondition | app/services/workspace/file_sync.py:127-165 | With at most five transfers at work, which the semaphore admits in their order, transfers of distinct workspace files deliver in every fault-free run if and only if their base names are pairwise distinct and no file is empty |
| FileTransfer.AtMostFiveAtWork | app/services/workspace/file_sync.py:127-165 | Within the limit at most five transfers have begun and not ended at any time |
| FileTransfer.EmptyDataFails | app/services/workspace/file_sync.py:292-318 | An empty file writes no chunk, so some fault-free run within the limit fails |
| FileTransfer.SharedBaseNameFails | app/services/workspace/file_sync.py:289-290 | Two files with one base name: some fault-free run within the limit gives one the other's bytes and fails the other |
| FileTransfer.RunIsCoherent | app/services/workspace/file_sync.py:292-318 | In every run the temporary file of a transfer holds exactly the chunks written so far; without faults its progress is the number of its commands |
| FileTransfer.OwnCommand | app/services/workspace/file_sync.py:292-318 | A command keeps its own transfer coherent and, if it does not fail, advances it |
| FileTransfer.OtherCommand | app/services/workspace/file_sync.py:289-297 | A command of another transfer with another base name and destination leaves a transfer as it is |
| FileTransfer.ChunksCoverText | app/services/workspace/file_sync.py:287-293 | The chunks are consecutive, of 60000 octets each but the last, none is empty, and together they are the whole text |
| FileTransfer.ChunkExtends | app/services/workspace/file_sync.py:294-298 | The first chunk replaces whatever was in the temporary file, each later one extends what was written |
| FileTransfer.TmpIsNotDest | app/services/workspace/file_sync.py:290-290 | No temporary file is a destination in the workspace |
| FileTransfer.TemporaryName | app/services/workspace/file_sync.py:289-290 | The temporary file is named by what follows the last slash of the destination |
| FileTransfer.WriteToContainer | app/services/workspace/file_sync.py:270-318 | Alone and with any faults, the call ends in the files and the outcome to which its commands lead one after the other |
| FileTransfer.AloneWithoutFaults | app/services/workspace/file_sync.py:292-318 | Without faults a nonempty file arrives and nothing else changes; an empty one is replaced by what a stale temporary file decodes to, or the call fails; the temporary file is gone |
| OpenApiSchema.BoundedResolutionIsComplete | workspace_agent/openapi_mcp.py:135-178 | If the expansion of a schema fits in the depth limit, no larger limit gives another result, and the result is not a reference; SchemaExpansion.ResolutionIsExpansion says what it is |
| SchemaExpansion.ResolutionIsExpansion | workspace_agent/openapi_mcp.py:135-178 | If the depth limit is not what stops it, resolution returns e if and only if e is the expansion of the schema: references followed to their target, the expanded parts of an allOf merged, the first alternative of a choice expanded, siblings merged on top, properties and items expanded one by one, everything else kept |
| SchemaExpansion.PartsAreCollected | workspace_agent/openapi_mcp.py:149-157 | The expansion of an allOf has the properties of its expanded parts and of the siblings, the last one that has a property deciding it, their required names in the order of first occurrence, and the last type and description |
| SchemaExpansion.ResolveExpands | workspace_agent/openapi_mcp.py:135-178 | What is resolved with enough depth is an expansion |
| SchemaExpansion.ExpansionIsResolved | workspace_agent/openapi_mcp.py:135-178 | Every expansion, however deep, is what is resolved with enough depth |
| SchemaExpansion.ReferredIsResolved | workspace_agent/openapi_mcp.py:113-133 | The fields that a chain of references leads to are what resolving the reference gives |
| OpenApiSchema.DepthIrrelevant | workspace_agent/openapi_mcp.py:135-178 | Resolution at a sufficient depth is resolution at any larger depth, and stays sufficient |
| OpenApiSchema.RefDepthIrrelevant | workspace_agent/openapi_mcp.py:113-133 | The same for a chain of references |
| OpenApiSchema.ResolvedRefIsNoRef | workspace_agent/openapi_mcp.py:113-133 | A resolved reference has no top-level reference, for every specification, cyclic ones included |
| OpenApiSchema.SelfReferenceIsAnyObject | workspace_agent/openapi_mcp.py:113-133 | A reference to itself resolves to any object |
| OpenApiSchema.SettledResultIsNoRef | workspace_agent/openapi_mcp.py:135-178 | A schema whose expansion fits resolves to something without a top-level reference |
| OpenApiSchema.ReferenceReachesTarget | workspace_agent/openapi_mcp.py:120-126 | A pointer in the string representation (section 3 of RFC 6901) finds what indexing the specification with its keys finds, or fails alike |
| OpenApiSchema.FragmentReachesTargetIff | workspace_agent/openapi_mcp.py:117-128 | A pointer in the URI fragment representation (section 6 of RFC 6901) does so in every specification if and only if every character of its keys may stand in a fragment as it is |
| OpenApiSchema.FragmentOfPointer | workspace_agent/openapi_mcp.py:120-126 | The fragment representation of a pointer is the string representation of the pointer with encoded keys |
| OpenApiSchema.UnescapeInvertsEscape | workspace_agent/openapi_mcp.py:125-125 | The two replacements invert the escaping of section 3 of RFC 6901 for every key |
| OpenApiSchema.MergeFlattens | workspace_agent/openapi_mcp.py:180-200 | Merging a merged schema in front of others is merging all their parts, for all lists; a list that raises makes every extension raise |
| OpenApiSchema.MergeMeaning | workspace_agent/openapi_mcp.py:180-200 | The merge has the last type and description, the right-biased union of properties and the first occurrences of required names |
| OpenApiSchema.MergeRaisesIff | workspace_agent/openapi_mcp.py:180-200 | Merging raises if and only if some object of the list has properties that are no object or required names that are no array |
| OpenApiSchema.MergedNamesDistinct | workspace_agent/openapi_mcp.py:190-193 | Required names never repeat |
| OpenApiSchema.MergeFromAppend | workspace_agent/openapi_mcp.py:183-195 | Merging a concatenation is merging the second list into the merge of the first |
| OpenApiSchema.MergeSchemas | workspace_agent/openapi_mcp.py:180-200 | The two nested loops compute the merge that these lemmas are about |
| PathTemplate.SequentialIsSimultaneousIff | workspace_agent/openapi_mcp.py:311-314 | For any template text and lists of names that have the template's and perhaps further ones: the replace loop is the simultaneous substitution for all arguments, orders and repetitions if and only if the template is not nested; for the lists of the code not being nested is sufficient |
| PathTemplate.OwnNamesSubstituteIff | workspace_agent/openapi_mcp.py:310-314 | For the template's own names: the replace loop is the simultaneous substitution for all arguments, orders and repetitions if and only if behind no literal opening brace the pieces can spell one of those names up to a closing brace, equal parameters with equal values |
| PathTemplate.SpellsWhatIsThere | workspace_agent/openapi_mcp.py:310-314 | A name that some arguments do spell in front of a closing brace can be spelled |
| PathTemplate.SpellingIsThere | workspace_agent/openapi_mcp.py:310-314 | A name that can be spelled is spelled by the arguments with the values found |
| PathTemplate.HarmlessNested | workspace_agent/openapi_mcp.py:310-314 | "{{a}b}" is nested and yet substituted as it should be, for all arguments and orders of its own names |
| PathTemplate.RepeatedNestedFails | workspace_agent/openapi_mcp.py:310-314 | "{{a}}{a}" is not |
| PathTemplate.OrderIsIrrelevantIff | workspace_agent/openapi_mcp.py:311-314 | For given arguments: every order and repetition of the allowed names gives the simultaneous substitution if and only if that substitution contains no placeholder of such a name |
| PathTemplate.PathIsSubstitution | workspace_agent/openapi_mcp.py:309-319 | For templates that are not nested: the path is the simultaneous substitution if every parameter has an argument, an error otherwise, and keeps the number of slashes |
| PathTemplate.UnnestedFormsNothing | workspace_agent/openapi_mcp.py:310-314 | Arguments that form a placeholder anywhere show that the template is nested |
| PathTemplate.NestedFormsName | workspace_agent/openapi_mcp.py:310-314 | A nested template forms a placeholder as soon as every parameter is "a" |
| PathTemplate.ReplaceDropsBrace | workspace_agent/openapi_mcp.py:314-314 | Replacing a placeholder that occurs takes away an opening brace for good |
| PathTemplate.ReplaceIsSubstitution | workspace_agent/openapi_mcp.py:314-314 | Where the simultaneous substitution forms no placeholder of a name, replacing that placeholder in a partly substituted template substitutes exactly that parameter |
| PathTemplate.PiecesOfTemplate | workspace_agent/openapi_mcp.py:310-310 | Any template text is its literal characters and placeholders in order, and the pattern finds exactly the names of the placeholders |
| PathTemplate.PiecesAreExhausted | workspace_agent/openapi_mcp.py:310-310 | What the pattern leaves as literals contains no placeholder |
| PathTemplate.FirstMissing | workspace_agent/openapi_mcp.py:311-319 | The loop fails if and only if some name has no argument |
| PathTemplate.MissingIsNamed | workspace_agent/openapi_mcp.py:315-319 | The error names the first parameter without an argument |
| PathTemplate.SlashesKept | workspace_agent/openapi_mcp.py:309-314 | Substitution neither adds nor removes a slash |
| PercentEncoding.QuoteIsReversible | workspace_agent/openapi_mcp.py:281-284 | Percent-decoding returns the encoded octets (section 2.1 of RFC 3986) |
| PercentEncoding.CharactersAre | workspace_agent/openapi_mcp.py:281-284 | Letters, digits, "-", ".", "_" and "~" stay, everything else is encoded with upper-case digits |
| PercentEncoding.Utf8Is | workspace_agent/openapi_mcp.py:281-284 | A character becomes the shortest octets that section 3 of RFC 3629 reads as it |
| PercentEncoding.PercentEncodeIsReversible | workspace_agent/openapi_mcp.py:281-284 | Percent-decoding returns octets of which every one is encoded |
| PathTemplate.QuoteIsBraceAndSlashFree | workspace_agent/openapi_mcp.py:281-284 | An encoded value has no brace and no slash |
| PathTemplate.NestedBracesSubstituteTwice | workspace_agent/openapi_mcp.py:310-314 | In "{{a}}{a}" a value is substituted into the placeholder that an earlier value made |
| PathTemplate.BuildPath | workspace_agent/openapi_mcp.py:309-319 | The loop of the tool call computes the substitution that these lemmas are about |
| ToolPath.RequestedSegmentsIff | workspace_agent/openapi_mcp.py:309-345 | For templates that are not nested, with all arguments: the client requests every segment of the template filled with its arguments, and no other, if and only if no filled segment is a dot segment; then the path is one that the proxy forwards |
| ToolPath.DotArgumentIff | workspace_agent/openapi_mcp.py:281-284 | A segment that is one placeholder becomes a dot segment if and only if its value is "." or ".." |
| ToolPath.SegmentsAreFilled | workspace_agent/openapi_mcp.py:309-314 | The segments of the path that is built are the segments of the template with their own placeholders replaced |
| ToolPath.SegmentsKeptIff | workspace_agent/openapi_mcp.py:345-367 | The client keeps the segments of a path if and only if none is a dot segment |
| McpCall.RegisterAndCall | app/services/execute_service.py:544-601 | From registration to the request that goes out, for distinct names: the call reaches the proxy as the server's own if and only if name and path are good; then its origin, path and query are those of a direct call to the original base URL. It is refused if and only if the configuration names the host in another case than "Host"; otherwise every resolved header arrives with its value, as the only field of its name if and only if it has no rival; and its headers are those of the direct call if and only if no rival passes, the host is named as "Host" if at all, and otherwise the base URL needs no port and no IPv6 literal |
| McpCall.RegisterAndCallDirectly | workspace_agent/openapi_mcp.py:48-63 | A server registered without a base URL is called directly at the first server of its document if that is for HTTP, and not at all otherwise; no rule is built for its name |
| McpCall.CallIsOwnIff | app/services/proxy/credential_proxy.py:134-175 | Through client, request line and routing, a call is forwarded under the server's own name, with its rule, to its base URL with the client's path and query, if and only if name and path are good; for clients that keep the slash after a final dot segment and for those that drop it |
| McpCall.KeptSlashLeavesPath | workspace_agent/openapi_mcp.py:345-367 | With a client that keeps the slash a path is good if and only if the client accepts it and it does not climb |
| McpCall.ForwardedIsDirect | app/services/proxy/credential_proxy.py:445-492 | The request that the proxy sends for such a call has origin, path and query of a direct call, for both kinds of client |
| McpCall.EncodedNameIsLookedUp | app/services/proxy/credential_proxy.py:431-443 | A name that the client has to encode is looked up in its encoded form; when no server has that name, the answer is 404 |
| McpCall.OnlyServerIsNotFound | app/services/proxy/credential_proxy.py:431-443 | So the only server of a run, with a name to encode, is answered 404 |
| McpCall.SpaceInNameIsNotFound | app/services/proxy/credential_proxy.py:431-443 | For example a server named "my server" |
| McpCall.SlashInNameIsLost | app/services/proxy/credential_proxy.py:421-429 | A name with a slash is never routed as itself |
| McpCall.CutNameIsLost | workspace_agent/openapi_mcp.py:345-367 | A name with a question or number sign is cut off by the client and never routed as itself |
| McpCall.PlainNameIff | app/services/proxy/credential_proxy.py:421-446 | Without such characters the call is the server's own if and only if name and path are good |
| McpCall.HandleOfJoin | app/services/proxy/credential_proxy.py:421-446 | The proxy reads the second segment of a path as the name and the rest as the remaining path |
| McpCall.HandleBehindName | app/services/proxy/credential_proxy.py:421-446 | Behind the prefix and an encoded name the proxy answers as for that name; if nothing of the path is left, the query becomes part of the name |
| McpCall.PrefixOfJoin | app/services/proxy/credential_proxy.py:171-174 | Only paths of at least two segments, the first of them "mcp", go to this handler |
| McpCall.LineIsParsed | app/services/proxy/credential_proxy.py:134-141 | A request line with a verb and a target without spaces is read as that verb and target |
| McpCall.ContainerBase | workspace_agent/openapi_mcp.py:48-63 | The base URL that the container settles on for a rewritten configuration |
| McpCall.ClientPathTwice | app/services/proxy/credential_proxy.py:445-492 | Behind a base path, a path that does not climb and the client's form of it make the same request |
| ClientUrl.DotsOnBase | workspace_agent/openapi_mcp.py:345-367 | Behind a base, removing dot segments gives what it gives for the path alone, and each climb takes away one segment of what the base comes to (section 5.2.4 of RFC 3986, with or without the slash after a final dot segment) |
| ClientUrl.EncodeUnchangedIff | workspace_agent/openapi_mcp.py:345-367 | The client leaves exactly the texts alone whose characters are all kept |
| ClientUrl.KeptAre | workspace_agent/openapi_mcp.py:345-367 | The characters that a client leaves alone in a path, and those that it refuses |
| ClientUrl.SegmentsOfJoin | workspace_agent/openapi_mcp.py:345-367 | Splitting joined segments returns them |
| McpRouting.RuleOfDistinctName | app/services/execute_service.py:573-578 | With distinct names the rule under a server's name is its own |
| McpRouting.BuildRules | app/services/execute_service.py:565-595 | The loop builds the rules that the theorems are about and rewrites every configuration in order, whatever the rewriting of one is |
| McpRouting.NamedRoute | app/services/proxy/credential_proxy.py:421-446 | A request for a slash-free name is routed by that name to its base URL and the rest of the path, or answered 404 |
| McpRouting.DuplicateNameRoutes | app/services/execute_service.py:568-578 | With repeated names a call is preserved if and only if the last configuration of the name has the same base URL |
| McpRouting.RewriteAllAt | app/services/execute_service.py:568-601 | Each configuration is rewritten in its place |
| McpRouting.TrimmedIs | workspace_agent/openapi_mcp.py:48-53 | What is trimmed off a base URL are all the slashes at its end and nothing else |
| McpRouting.Proxy.RegisterServers | app/services/execute_service.py:544-601 | The container gets every configuration in order with its name and document; one with a base URL gets its place behind the proxy instead, one without gets none; the proxy's rules become those built, or stay when none was built |
| McpHeaders.OnlyFieldIff | app/services/proxy/credential_proxy.py:456-492 | Every header of the rule arrives with its value; it is the only field of its name if and only if no passed header of the container, no "Host" and no other header of the rule has that name in another case |
| McpHeaders.SameFieldsIff | app/services/proxy/credential_proxy.py:456-492 | The fields of a header of the rule are those of a direct call if and only if no passed header has its name in a case that the rule does not have, and the rule has "Host" if the header names the host |
| McpHeaders.SameNameIff | app/services/proxy/credential_proxy.py:456-468 | Two field names are the same if and only if they are so letter by letter, up to case |
| McpHeaders.LikeDirectIff | app/services/proxy/credential_proxy.py:456-492 | Host and resolved headers of a forwarded call are those of a direct one if and only if no rival passes, the rule names the host as "Host" if at all, and otherwise the base URL needs no port and no IPv6 literal |
| McpHeaders.DirectHostIs | app/services/proxy/credential_proxy.py:456-492 | The Host field of a direct call is the name in lower case or the literal as it is, with any port but 80 of http and 443 of https |
| McpHeaders.HostIsDirectIff | app/services/proxy/credential_proxy.py:470-473 | The Host that the proxy sets is the client's own if and only if the authority names no port other than the scheme's default and no IPv6 literal |
| McpHeaders.ProxyHostOfPlain | app/services/proxy/credential_proxy.py:471-473 | What urlparse finds as the host of an accepted authority: the name in lower case, without brackets and port |
| McpHeaders.NoHostIs | app/services/proxy/credential_proxy.py:471-473 | No Host is set if and only if the authority has an empty host |
| McpHeaders.NameIsAccepted | app/services/proxy/credential_proxy.py:471-473 | A host name with or without a port is an accepted authority of that host and port |
| McpHeaders.LiteralIsAccepted | app/services/proxy/credential_proxy.py:471-473 | So is an IPv6 literal in brackets |
| McpHeaders.DecimalIsRead | app/services/proxy/credential_proxy.py:471-473 | The port that is printed in a Host reads as that port |
| McpHeaders.AfterLastIs | app/services/proxy/credential_proxy.py:471-473 | What follows the last separator, or everything without one |
| McpHeaders.HostArrives | app/services/proxy/credential_proxy.py:470-476 | Without a header of the rule for it, the target gets one Host, and it is that of a direct call under the same condition |
| McpHeaders.RefusedIff | app/services/proxy/credential_proxy.py:473-492 | The client refuses the forwarded call for two Host fields if and only if the rule names the host in another case than "Host" |
| McpHeaders.OtherHeadersPass | app/services/proxy/credential_proxy.py:456-476 | A header of the container that the rule does not have arrives unless it is hop-by-hop or the host |
| McpHeaders.AcceptArrivesTwice | app/services/proxy/credential_proxy.py:456-476 | A resolved header "accept" arrives beside the container's "Accept"; a direct call sends it alone |
| McpHeaders.LowerCaseHostIsRefused | app/services/proxy/credential_proxy.py:470-476 | With a resolved header "host" no forwarded call is sent; a direct call is |
| McpHeaders.PortIsLost | app/services/proxy/credential_proxy.py:471-473 | For the base URL "http://h:8443" the proxy sends the Host "h", which is not that of a direct call |
| Retry.RetrySync | app/infrastructure/retry.py:119-178 | The result is that of the first attempt that is not retryable or of the last one allowed, no further attempt is made, and the total sleep is the sum of the delays drawn after each attempt but the last |
| Retry.CalculateDelay | app/infrastructure/retry.py:32-55 | The delay is between zero and the capped delay, the capped one without jitter or with the largest draw, and zero with the smallest |
| Retry.CappedDelay | app/infrastructure/retry.py:46-49 | The smaller of the base delay times the power and the cap |
| Retry.PowerAdds | app/infrastructure/retry.py:46-49 | Powers of the base multiply |
| Retry.SleptWithinBound | app/infrastructure/retry.py:119-178 | Draws only shorten the sleep; without jitter it is the capped geometric sum |
| Retry.SleepBoundGrows | app/infrastructure/retry.py:46-49 | The bound on the total sleep grows with the attempts |
| CircuitBreaker.AdmissionIsHistory | app/infrastructure/circuit_breaker.py:62-128 | After any sequential run with a threshold of at least one, the function runs if and only if fewer than threshold calls failed since the last success, or the last failure is more than reset_timeout ago |
| CircuitBreaker.RunReflects | app/infrastructure/circuit_breaker.py:62-128 | State, failure count and last failure time are functions of the executed calls |
| CircuitBreaker.OutageBound | app/infrastructure/circuit_breaker.py:74-128 | While every call fails, from whatever state, at most threshold + T / reset_timeout calls reach the service in a time of T |
| CircuitBreaker.OutagePace | app/infrastructure/circuit_breaker.py:116-121 | Past the threshold each further execution moves the last failure by more than reset_timeout |
| CircuitBreaker.CallDuringOutage | app/services/bedrock_client.py:179-186 | During an outage, from whatever state the circuit was in, Bedrock calls in a time of T make at most (threshold + T / reset_timeout) times max_attempts requests |
| CircuitBreaker.CallWhileDown | app/services/bedrock_client.py:179-186 | The calls form a history of failing calls whose executions, with max_attempts each, account for all requests made |
| CircuitBreaker.OutageAllowance | app/infrastructure/circuit_breaker.py:74-128 | The executions of an outage, with a fixed number of requests each, stay within that bound |
| CircuitBreaker.UsedBreakerIsPlausible | app/infrastructure/circuit_breaker.py:62-128 | Any sequential use leaves the breaker in a state from which the outage bounds apply |
| CircuitBreaker.Circuit.State | app/infrastructure/circuit_breaker.py:62-72 | Reading the state is a step of the history, since it can half-open the breaker |
| CircuitBreaker.Circuit.Execute | app/infrastructure/circuit_breaker.py:74-128 | The call runs exactly as the history says, and the recorded executions grow by it if it ran |
| CircuitBreaker.CallBedrock | app/services/bedrock_client.py:179-186 | A rejected call makes no request and changes nothing; one that runs makes at most max_attempts and ends as its deciding attempt; if that returned a value the breaker is closed without failures, and if not one more failure is counted |
| CircuitBreaker.CallWhileUp | app/services/bedrock_client.py:179-186 | As long as the calls of a closed breaker return, none is rejected |
| ContextAccounting.EventFlagAndChecksAgree | app/services/execute_service.py:930-976 | After a committed run with a positive window: the event's tokens are the stored ones, it says blocked if and only if the flag is stored, it says the user can continue if and only if the next check of that model admits, and once blocked every later check of any model rejects and nothing changes |
| ContextAccounting.TotalsAreSums | app/repositories/conversation_repository.py:66-75 | Over any runs of any models, estimated tokens equal total input plus total output equal the sums over the admitted and committed runs |
| ContextAccounting.LimitIsFinal | app/services/execute_service.py:922-928 | Once the flag is set no sequence of runs changes the record and every check rejects |
| ContextAccounting.UnlimitedModelNeverBlocks | app/services/execute_service.py:964-967 | With a window that is not positive there is no event and no flag; a later check with a positive window decides by its own percentage |
| ContextAccounting.LevelsAreThresholds | app/services/execute_service.py:1005-1030 | The four levels as exact comparisons of token counts |
| ContextAccounting.StatusIs | app/services/execute_service.py:1005-1041 | The event in token counts: no event without a positive window; otherwise the tokens, the window, the percentage, whether the user can continue (below 95 percent) and the advice to start a new chat (from 70 percent) |
| ContextAccounting.PercentAtLeast | app/services/execute_service.py:931-933 | A percentage comparison is a comparison of integer products |
| ContextAccounting.NormalizeIsIdempotent | app/services/execute_service.py:1238-1282 | Normalising normalised usage changes nothing, and the total is the sum of the five counts |
| ContextAccounting.RawCounts | app/services/execute_service.py:1238-1282 | The five counts of a raw table by the keys they come from: nested counts for five minutes and one hour, all tokens of cache creation for five minutes where the nested ones are missing |
| ContextAccounting.NormalisedCounts | app/services/execute_service.py:1238-1282 | The five counts of a normalised table by their keys |
| ContextAccounting.CheckContextLimit | app/services/execute_service.py:908-941 | The check rejects by the stored flag or the percentage, and admits an unknown conversation |
| ContextAccounting.BuildContextStatusEvent | app/services/execute_service.py:978-1041 | The event is about the stored estimate plus the run's tokens |
| ContextAccounting.UpdateContextStatus | app/services/execute_service.py:943-976 | The stored record is charged with the run and its flag decided on the accumulated tokens |
| ContextAccounting.Conversation.UpdateContextStatus | app/repositories/conversation_repository.py:52-79 | The three counters grow by the run's tokens and the flag is replaced |
| ContextAccounting.Execute | app/services/execute_service.py:908-1041 | One run: a rejected or rolled back one leaves the record as it was |
| SheetPaging.PagesAreTheWhole | workspace_agent/file_tools/excel_tools.py:241-345 | For sheets with any text, following the hints from the top shows as many rows as the area has, and what one read shows if and only if no cell with text lies in a merged range that begins above the cell's page |
| SheetPaging.PagesConcatenate | workspace_agent/file_tools/excel_tools.py:525-529 | For every workbook, whatever is stored in covered cells and however merged ranges lie, the pages of any size concatenate to one full read |
| SheetPaging.ReadReturnsRows | workspace_agent/file_tools/excel_tools.py:241-345 | For every workbook, a read shows exactly the rows of the area from the first to the last row asked for, each cell with its loaded text, and there is more if and only if the area has a row below that; without an end it stops after max_rows rows |
| SheetPaging.ReadsConcatenate | workspace_agent/file_tools/excel_tools.py:241-345 | Reading rows a to b and then rows b + 1 to c is reading rows a to c, wherever they lie |
| SheetPaging.LoadedCellText | workspace_agent/file_tools/excel_tools.py:179-187 | After loading, every area prints a cell's own text, because the loader empties what merged ranges cover |
| SheetPaging.LoadedTextIs | workspace_agent/file_tools/excel_tools.py:179-187 | Loading empties exactly the cells that a merged range hides, and leaves the text of the others |
| SheetPaging.CellTextIs | workspace_agent/file_tools/excel_tools.py:306-316 | Without loading, a cell reads empty exactly where a range hides it that begins inside the area |
| SheetPaging.LoadedHints | workspace_agent/file_tools/excel_tools.py:525-529 | From any row on, the pages show what one read of the rest shows |
| SheetPaging.HintMovesOn | workspace_agent/file_tools/excel_tools.py:525-529 | The hint moves on if and only if the page size is at least one; below that the page is empty and there is always more |
| SheetPaging.CellOnPage | workspace_agent/file_tools/excel_tools.py:306-316 | A page prints a cell as the whole read does if and only if the cell is empty or not covered from above the page |
| SheetPaging.AnchorIsCover | workspace_agent/file_tools/excel_tools.py:147-162 | With disjoint ranges the lookup gives the range that covers the cell, whatever the order of the list |
| SheetPaging.HintsAgreeFrom | workspace_agent/file_tools/excel_tools.py:283-333 | The same comparison from any page boundary on |
| SheetPaging.BuildMergedLookup | workspace_agent/file_tools/excel_tools.py:142-167 | The lookup maps exactly the covered cells to the top left cell of the last range that covers them |
| SheetPaging.ReadRow | workspace_agent/file_tools/excel_tools.py:304-319 | The column loop reads the row as the lookup masks it |
| SheetPaging.GetSheetCsv | workspace_agent/file_tools/excel_tools.py:241-345 | The loops return the page that these lemmas are about, for any start, end and page size, also outside the area |

## Left out

- Redis, Docker, S3, the database, HTTP and the clock are foreign: their effects are atomic commands, their results and times are parameters.
- JSON text is opaque, and which texts decode is a parameter; key order of objects is not modelled.
- UTF-8 is decoded chunk by chunk in the relay; the model takes chunks of characters, so chunks cut inside a code point are not covered.
- The mapping from raw events to host events (`_translate_event`, `_message_to_sse_events`) builds values only and is not modelled.
- A recovery error frame appended in the middle of an unfinished frame merges with it; the round trip is about streams of whole frames.
- LeaseRenewal.RenewalBound: takes Redis calls as instantaneous and extends as reaching Redis, because the code ignores a failed one.
- LeaseLock.LockKey.SetNx: a key whose deadline is reached reads as absent at that very millisecond; Redis keeps it a moment longer at most.
- The `conversation_locked` branch of a run is not reached by the error that `acquire` raises and is not modelled.
- Allocation.ExclusiveAllocation: fresh container ids are assumed distinct; that an assigned container is alive is not claimed, since a collection cycle can take a container between its acquisition and its record.
- Workspace.Workspace.GetOrCreate: operations follow each other and the two writes of an assignment are one, because index agreement is false of interleaved ones.
- Workspace.Workspace.Collect: labels of containers carry no conversation id, as the creation code leaves them; failures of the listing itself and the active-container gauge are left out.
- Shutdown (`destroy_all`) stops proxies and drains the pool without touching the indexes; only the drain is modelled.
- The reload of pool sizes from Redis is left out; sizes are parameters of each operation.
- RateLimit.DecisionIsHistory: takes the timestamps of successive script runs as nondecreasing; middlewares with clocks of their own can break that.
- RateLimit.RetryAfterIsExact: script numbers are real numbers; the rounding of doubles and of the returned integer conversion is left out.
- Elements of one score are ordered by member in Redis; the oldest element's score, which is all the script uses, does not depend on that.
- SSE fields other than `event: ` and `data: ` with one space, which section 9.2.6 of the WHATWG HTML Standard also allows, are ignored by the code and by the model.
- Workspace.Workspace.Replenish: its creators follow each other here; concurrent creators are the subject of the Allocation module.
- FileTransfer.WriteToContainer: creating the parent directory and file names with a quote character are left out.
- OpenApiSchema.MergeSchemas: `required` that is a string or an object, and `properties` given as a list of pairs, count as raising; Python would iterate over them.
- Numbers of a specification used as list indexes do not occur, because the parts of a pointer are strings.
- ToolPath.RequestedSegmentsIff: templates with a query or a fragment of their own are left out, since the client would cut them off.
- PathTemplate.BuildPath: values are the UTF-8 octets of their text; which characters form a word is a parameter.
- McpCall.CallIsOwnIff: the client's refusal of very long URLs is left out; encoded query parameters are a text of kept characters without slashes, and bodies are left out. Paths begin with a slash, as OpenAPI requires. The client of the container and that of the proxy are taken to fold dot segments alike.
- McpCall.ForwardedIsDirect: takes base URLs without query and fragment, since the client would replace the one and drop the other, and without user information; host names are of ASCII letters, digits and "-._~", ports of digits.
- McpHeaders.RefusedIff: other refusals of the HTTP library, such as two different content lengths or ill-formed header values, are left out; lower-casing of header names is modelled for ASCII and the Kelvin sign only.
- CircuitBreaker.Circuit.Execute: calls of several threads at once are left out; the counters are then updated under a lock but the admission test is not part of it.
- The asynchronous retry is the synchronous one with another sleep.
- ContextAccounting.EventFlagAndChecksAgree: runs of a conversation do not overlap; the lock is released before the commit (app/services/execute_service.py:411-420), so the code does not ensure that. Percentages are real numbers.
- SheetPaging.GetSheetCsv: cell text is given after its normalisation and the replacement of line breaks; parsing of the workbook, the missing-sheet error and CSV quoting are left out.
- CRUD interfaces, authentication, audit logs, metrics, prompts and the Word, PDF and image tools are left out.
