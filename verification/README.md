# Oracle Suite: a verified model of what is decided and what is delivered

This project models, in Dafny, the parts of Oracle Suite that decide which value is taken as true and which
messages reach whom, and proves properties of them over all inputs and all runs. Each module follows one
component. Code that updates state is a class or a method, proved against a specification function of its old
state; the theorems are then about that function and its runs.

| module | component |
|---|---|
| `Compare`, `Resolver`, `SplitterCall` | the RPC-Splitter: structural comparison of responses, the three resolvers, the collect-and-resolve loop of one call |
| `Replayer` | the event replayer: a cache walked with removal while iterating, and a window that is meant to fire once per configured period |
| `FanOut`, `FanIn` | the channel utilities, as systems of atomic steps |
| `PriceStore`, `Relayer`, `Median`, `PriceFlow` | prices from their arrival to the call of the Medianizer contract |
| `RedisStore` | the memory accounting of the Redis event store, with expiring buckets |
| `Interpolate` | the `${...}` / `%{...}` parser |
| `EvmScanner`, `StarknetScanner` | block ranges, and de-duplication of pending transactions |
| `HexCodec` | hexadecimal integers and byte strings, and block numbers with tags |
| `EventMemory` | the in-memory event store and its collector |
| `WebApi`, `WebApiProducer` | admission of requests, and the packs of broadcast messages |
| `Sorting`, `Sums`, `Newest`, `Indices`, `Wrappers` | in-place sorting and medians, sums over finite sets, newest messages, kept positions, options |

`dafny verify dfyconfig.toml` checks the whole project.

Conventions. Times are integers: nanoseconds, but in `RedisStore` expiry times are in seconds and the current
time is in milliseconds. Clocks, observed block heads, answers of contracts and endpoints, arrival orders and
random choices are parameters or nondeterministic steps. Integers are unbounded where the source uses `big.Int`;
elsewhere truncation and wrap-around are written out where they matter (`TruncDiv`, `Wrap64`).

Some properties that one would expect hold only under a condition. For these the condition is proved to be the
exact one:

- Comparison is not an equivalence on pointers that lead to nil (`NilChainsAreNotSymmetric`). What it accepts
  there is `NilChainsExactly`; a value equals its own copy exactly when no pointer in it leads to nil
  (`CopiesAgreeExactly`). The responses' decoded answers are required to be of that kind.
- The early answer at the graceful timer is always the final one, and the order of arrival never matters, if and only if
  twice the quorum exceeds the number of callers for calls resolved by plurality, and the quorum is at least the number
  of callers for gas values and block numbers (`EarlyFinalExactly`, `OrderFreeExactly`).
- A call returns no error and stores nothing exactly in the cases of `SilentExactly`, all of them with a quorum of one.
- With exactly one number among several responses, the gas resolver returns the first response, which is that
  number if and only if the number came first (`GasSingleExactly`).
- A replay tick sends every event once per crossed period if and only if it comes at most one nanosecond more than
  the interval after the previous one and consecutive periods are further apart than the two ticks (`ExactIsTimely`).
- A direct `Close` of the fan-in is safe if and only if every input is closed and drained (`CloseSafeExactly`), and so is
  the automatic close after inputs were added at the end of its wait (`AutoCloseSafeExactly`).
- A string is reproduced from its parse if and only if no backslash in it escapes anything (`ParseKeepsTextExactly`).
- Both scanning loops together leave no block out if and only if the prefetch loop saw a head at least as high as
  the fetch loop's (`ScanBlocks`).
- The accounted usage covers an author's bytes and keeps to the limit in every run if and only if all dates of one event
  fall into one accounting bucket (`LimitHoldsExactly`).
- Splitting a block range respects the limit unless the range has exactly one block too many (`SplitBlockRanges`).
- A block number is recovered from its text if and only if it is at most the largest int64 and its low 64 bits are
  not another number's tag (`BlockRoundTripExactly`).
- Admissions in a time window are bounded if and only if the flush interval exceeds the clock skew, or the window admits
  no whole second at all (`BoundedExactly`).
- Everything broadcast is sent or pending if and only if no flush with messages failed (`DeliveredExactly`).

Where documentation and code differ, the model follows the code:

- compare.go says that structures with unexported fields are always unequal; the code compares all fields one by one,
  exported or not, and so does the model, which makes no difference between them. The numbers of the RPC types, whose
  only field is unexported, are an instance (`SplitterCall.NumBallot`).
- server.go suggests that once the graceful timer has fired, the call returns as soon as there are enough responses;
  the code resolves once at the timer and then only when all responses have arrived. The call is as prompt as
  suggested for all responses if and only if the quorum is at least the number of callers (`PromptExactly`).
- server.go also says that a cancelled call returns immediately; the loop itself does not look at the context. A panic
  while resolving is recovered, so that the call then returns no error and leaves the result untouched.
- The comment at `splitBlockRanges` promises at most `limit` blocks; a range of `limit + 1` blocks is kept whole.

## Model

| member | source | states |
|---|---|---|
| Compare.CmpIsErasure | pkg/rpcsplitter/compare.go:35-113 | for values in one heap without pointers to nil, the recursive comparison with its address shortcuts holds exactly when the pointer-free normal forms are equal |
| Compare.BareExactly | pkg/rpcsplitter/compare.go:35-113 | values without pointers and addresses have one normal form only if they are one value |
| Compare.CmpExactly | pkg/rpcsplitter/compare.go:35-113 | on such values the comparison holds exactly when, without their pointers and addresses, they are one and the same value, so that no content is lost |
| Compare.CmpLeaves | pkg/rpcsplitter/compare.go:95-106 | texts, numbers and flags are equal exactly when type and content are |
| Compare.CmpParts | pkg/rpcsplitter/compare.go:52-94 | without any condition: arrays and structures compare item by item, maps key by key, and slices and maps at one address are equal |
| Compare.CompareIsEquivalence | pkg/rpcsplitter/compare.go:31-115 | so the comparison is reflexive, symmetric and transitive on such values, and a nil interface equals only another one |
| Compare.PointersAreIgnored | pkg/rpcsplitter/compare.go:40-48 | a value behind any number of pointers equals the same value behind any other number of them |
| Compare.NilChainsExactly | pkg/rpcsplitter/compare.go:37-48 | two pointer chains that end in nil compare equal exactly when the second is met on the first one's way to nil |
| Compare.NilChainsAreNotSymmetric | pkg/rpcsplitter/compare.go:37-48 | a pointer to nil equals nil, but nil does not equal it |
| Compare.CopiesAgreeExactly | pkg/rpcsplitter/compare.go:35-113 | a value equals its copy at other addresses exactly when no pointer in it leads to nil |
| Sorting.SortInPlace | pkg/price/relayer/relayer.go:376-378 | in-place sorting by a key yields an ordered permutation |
| Sorting.SortArray | pkg/event/publisher/replayer/replayer.go:77-79 | in-place sorting of numbers yields the sorted list |
| Sorting.MedianExactly | pkg/rpcsplitter/resolver.go:109-119 | the median is the middle, or the floored mean of the middle two, of any ordered permutation |
| Sorting.MedianRobust | pkg/rpcsplitter/resolver.go:109-119 | if more than half of the numbers lie in an interval, so does the median, whatever the rest are |
| Sorting.MedianNotRobust | pkg/rpcsplitter/resolver.go:109-119 | the bound is tight: with half of the numbers or fewer in the interval, the others can pull the median out |
| Resolver.ResolveDefault | pkg/rpcsplitter/resolver.go:43-76 | the nested counting loops: too few responses are refused, one response is returned, else the first response of the class with the quorum and strictly more members than every other, else the error for different responses |
| Resolver.CountMatches | pkg/rpcsplitter/resolver.go:57-62 | the inner loop counts the responses with the same normal form |
| Resolver.PluralityExactly | pkg/rpcsplitter/resolver.go:43-76 | for two or more responses and a positive quorum, it succeeds exactly when one class has the quorum and strictly more members than every other, and then it returns a received member of that class |
| Resolver.PluralityOrderFree | pkg/rpcsplitter/resolver.go:43-76 | for a positive quorum and two or more responses, any reordering of the responses resolves to the same class, or to the same error |
| Resolver.FilterByNumberType | pkg/rpcsplitter/resolver.go:160-167 | keeps exactly the responses that are numbers, in order |
| Resolver.ResolveGas | pkg/rpcsplitter/resolver.go:89-120 | the error for too few numbers, the out-of-range panic for none, the first response for one, the lower of two, else the middle of any ordered permutation of the numbers |
| Resolver.SortAndTakeMiddle | pkg/rpcsplitter/resolver.go:109-119 | sorting in place and taking the middle, or the floored mean of the middle two, is the median |
| Resolver.GasRobust | pkg/rpcsplitter/resolver.go:97-119 | with two or more numbers of which more than half lie in an interval, the gas value lies in it |
| Resolver.GasOrderFree | pkg/rpcsplitter/resolver.go:97-119 | the gas value depends only on the multiset of numbers |
| Resolver.GasOfTwoIsLowest | pkg/rpcsplitter/resolver.go:97-108 | of two numbers the gas value is the lower one |
| Resolver.GasSingleExactly | pkg/rpcsplitter/resolver.go:94-96 | with one number among the responses, the result is that number if and only if it was the first response |
| Resolver.GasSingleFails | pkg/rpcsplitter/resolver.go:94-96 | for example, an error that comes before the only number is what is returned |
| Resolver.ResolveBlockNumber | pkg/rpcsplitter/resolver.go:133-158 | the error for too few numbers, the panic for none, else the number that is near every other or highest and that no near number is below |
| Resolver.BlockExactly | pkg/rpcsplitter/resolver.go:141-157 | the lowest number within the allowed distance of the highest one is the only number of that kind |
| SplitterCall.Call | pkg/rpcsplitter/server.go:564-588 | for any arrival order and timer, the loop ends, having received the responses up to the timer if these resolve or panic, and else all of them; it stores the verdict's value or returns its error, and after a recovered panic it stores nothing; stated on the responses it received: the stored block number is one of their numbers, near every other or highest, with no near number below, and a gas value the lower of two or the median; with too few numbers the call waits for all and fails; when the quorum exceeds half of the callers and a quorum of them answers with one normal form, a plurality call stores a value of that normal form |
| SplitterCall.EarlyIsFinal | pkg/rpcsplitter/server.go:564-588 | for calls resolved by plurality: when twice the quorum exceeds the number of callers, the verdict is that of all responses, whenever the timer fires |
| SplitterCall.NothingEarly | pkg/rpcsplitter/server.go:564-588 | for calls of every kind: when the quorum is at least the number of callers, the verdict is the resolution of all responses |
| SplitterCall.CallIsOrderFree | pkg/rpcsplitter/server.go:564-588 | for calls resolved by plurality: then responses with the same votes, in any order and with any timer, have one class of answer |
| SplitterCall.MajorityDecides | pkg/rpcsplitter/server.go:564-588 | an answer that a quorum of more than half of the callers sends is the verdict, whatever the others send and whenever the timer fires |
| SplitterCall.EarlyFinalExactly | pkg/rpcsplitter/server.go:564-588 | for every kind of call: an early answer is always the final one if and only if, for a plurality, twice the quorum exceeds the number of callers, and for gas values and block numbers, the quorum is at least that number |
| SplitterCall.OrderFreeExactly | pkg/rpcsplitter/server.go:564-588 | neither order nor timer matters, for any responses, if and only if the same condition holds |
| SplitterCall.PromptExactly | pkg/rpcsplitter/server.go:564-588 | for every kind of call: once the timer has fired, no call lets responses pass that would resolve, if and only if the quorum is at least the number of callers |
| SplitterCall.LateCall | pkg/rpcsplitter/server.go:564-588 | for example, with equal numbers from all callers and a timer that fires at once, a quorum of the responses resolves, but the call waits for all of them |
| SplitterCall.GasCallRobust | pkg/rpcsplitter/server.go:564-588 | with a quorum of two or more, of which fewer than half could be outliers among all callers, every gas value a call succeeds with lies in the interval, whatever the order and timer |
| SplitterCall.SilentExactly | pkg/rpcsplitter/server.go:512-588 | with a positive quorum, a call returns no error and stores nothing if and only if the quorum is one, the first response is an error, and either a plurality is resolved from that response alone or exactly one number is among the responses a gas value is resolved from; never for block numbers |
| SplitterCall.SilentCalls | pkg/rpcsplitter/server.go:512-588 | for example, with two callers, an error followed by an answer |
| Replayer.New | pkg/event/publisher/replayer/replayer.go:64-89 | the three configuration errors in their order; otherwise, for any interval but zero, the configured periods in ascending order and an empty cache |
| Replayer.EventProvider.Serve | pkg/event/publisher/replayer/replayer.go:105-164 | the two routines, in any interleaving of arrivals and ticks, timely or not, are a run of the model with those arrivals and ticks, and forward every event as it arrived and in that order; after a timely run every event was also replayed once per period it crossed |
| Replayer.EventProvider.Remove | pkg/event/publisher/replayer/replayer.go:188-194 | removes the element last added or visited, and nothing if it is gone already |
| Replayer.EventProvider.Replay | pkg/event/publisher/replayer/replayer.go:143-158 | the scan of the periods with its early exit sends one copy exactly when a period is crossed and all earlier ones were over before the last tick |
| Replayer.EventProvider.Inspect | pkg/event/publisher/replayer/replayer.go:137-159 | an expired element is removed from its place, any other is kept and replayed if due |
| Replayer.EventProvider.Iterate | pkg/event/publisher/replayer/replayer.go:179-186 | the walk with removal during iteration visits each element once, keeps exactly the unexpired ones in order and sends the copies in that order |
| Replayer.EventProvider.Tick | pkg/event/publisher/replayer/replayer.go:132-161 | a tick is one step of the model of runs |
| Replayer.TickReplaysExactly | pkg/event/publisher/replayer/replayer.go:132-161 | a tick sends, in order of arrival and once each, exactly the cached events that are at most the last period and an interval old and that the scan fires for, dated by the tick |
| Replayer.TickKeepsExactly | pkg/event/publisher/replayer/replayer.go:137-142 | a tick keeps exactly the cached events of at most that age |
| Replayer.RunIsLogged | pkg/event/publisher/replayer/replayer.go:105-164 | over any run, timely or not, events are forwarded and cached as they arrived and in that order |
| Replayer.TimelyIsExact | pkg/event/publisher/replayer/replayer.go:137-159 | after a gap of at most the interval and one nanosecond, with periods further apart than the gap, a tick replays every event once per period it crosses |
| Replayer.ExactIsTimely | pkg/event/publisher/replayer/replayer.go:137-159 | a tick later than the last one does so if and only if that condition holds |
| Replayer.LateTickDrops | pkg/event/publisher/replayer/replayer.go:139-142 | a later tick drops some event whose last period it should replay |
| Replayer.CrowdedTickSkips | pkg/event/publisher/replayer/replayer.go:143-158 | a gap that reaches from one period to the next makes the tick miss a period |
| Replayer.RunIsSound | pkg/event/publisher/replayer/replayer.go:105-194 | over any timely run every event is forwarded once and replayed exactly once per period its age has crossed since the last tick before its arrival, unchanged but for the date and at most an interval late; the cache holds the unexpired events in order |
| Replayer.NeverDroppedEarly | pkg/event/publisher/replayer/replayer.go:139-142 | in such a run no event leaves the cache before its last period is over |
| FanOut.FanOut.Distribute | pkg/util/chanutil/chainutil.go:137-139 | one value is sent to every channel of the list read under the lock, while producers and subscribers go on |
| FanOut.FanOut.Worker | pkg/util/chanutil/chainutil.go:135-150 | the worker, with any steps of producers and subscribers in between, is part of a run of the system; it blocks only on an empty open input, and otherwise ends with every channel closed and every reader served from the first value distributed after it subscribed |
| FanOut.FanOut.Shutdown | pkg/util/chanutil/chainutil.go:141-149 | every registered channel is closed and the list forgotten |
| FanOut.EveryReaderGetsItsSuffix | pkg/util/chanutil/chainutil.go:121-156 | in every interleaving each reader has received a contiguous piece of the input from the first value distributed after it subscribed, and all of that suffix once its channel is closed |
| FanOut.NothingLost | pkg/util/chanutil/chainutil.go:135-140 | received and queued values are always the input in order |
| FanOut.WorkDecreases | pkg/util/chanutil/chainutil.go:135-150 | once the input is closed, each step of the worker decreases its work |
| FanOut.WorkerFinishes | pkg/util/chanutil/chainutil.go:135-150 | from any reachable state with a closed input, the worker's steps end with every reader served in full and closed |
| FanIn.FanIn.AddInputs | pkg/util/chanutil/chainutil.go:45-61 | adds the given number of open empty inputs with a routine each, or changes nothing and fails once closed |
| FanIn.FanIn.Forward | pkg/util/chanutil/chainutil.go:53-58 | an input's routine, with any steps of all others in between, is part of a run of the system and blocks only on an empty open input; in a disciplined run it does not panic and ends with its whole input delivered in order |
| FanIn.FanIn.CloseWhenDone | pkg/util/chanutil/chainutil.go:89-96 | the closing routine closes the output once no routine is running; in a disciplined run all inputs are closed and delivered by then |
| FanIn.OutputInterleavesInputs | pkg/util/chanutil/chainutil.go:45-96 | in every run without a direct Close and without an Add between the end of the wait and the automatic close: no panic, the output interleaves prefixes of what was produced for each input, and when it is closed every input is closed and delivered in full |
| FanIn.MadeIsProduced | pkg/util/chanutil/chainutil.go:45-58 | whatever happens, an input's delivered and pending values are those produced for it, in order |
| FanIn.InternalDecreases | pkg/util/chanutil/chainutil.go:53-58 | every step of the routines decreases a measure |
| FanIn.InternalProgress | pkg/util/chanutil/chainutil.go:89-96 | with all inputs closed, some routine can step until the output is closed automatically |
| FanIn.CloseSafeExactly | pkg/util/chanutil/chainutil.go:68-83 | after a direct Close no continuation panics if and only if every input was closed and drained |
| FanIn.AutoCloseSafeExactly | pkg/util/chanutil/chainutil.go:89-96 | after the automatic close no continuation panics if and only if every input was closed and drained, inputs added after the wait included |
| FanIn.LateAddSafeExactly | pkg/util/chanutil/chainutil.go:45-96 | an addition right before the automatic close is safe if and only if it adds no input |
| PriceStore.MemoryStorage.Add | pkg/price/store/memory.go:38-47 | an older price does not replace the stored one, any other does; no other entry changes |
| PriceStore.MemoryStorage.GetByAssetPair | pkg/price/store/memory.go:61-72 | one price for every entry of the pair, in any order, none twice |
| PriceStore.Store.GetByFeeder | pkg/price/store/store.go:152-155 | returns the last arrival among the feeder's acceptable prices of greatest age for the pair, and nothing exactly when none was acceptable |
| PriceStore.Store.IsPairSupported | pkg/price/store/store.go:171-178 | holds exactly for the configured pairs |
| PriceStore.Store.CollectPrice | pkg/price/store/store.go:157-169 | the three rejections in their order, for a bad signature, an unsupported pair and a value that is not positive, which leave the book unchanged; otherwise the price is filed under its recovered signer unless a later one is there |
| PriceStore.BookIsSound | pkg/price/store/store.go:157-169 | after any arrivals every entry's signer and pair are its key's, its value is positive and its pair supported |
| PriceStore.BookIsLatest | pkg/price/store/memory.go:38-47 | each entry is the last arrival among the acceptable ones of greatest age for its key, and a key without entry had none |
| Median.Poke | pkg/price/median/geth/median.go:142-166 | the argument is sorted in place by value, and the five parallel arrays hold the parts of its elements one by one |
| Relayer.ClearOlderThan | pkg/price/relayer/relayer.go:360-368 | keeps exactly the prices not older than the oracle's, in order |
| Relayer.FilterAddresses | pkg/price/relayer/relayer.go:342-357 | keeps exactly the prices whose recovered signer is listed, in order and once each |
| Relayer.Truncate | pkg/price/relayer/relayer.go:330-338 | whatever the shuffle does, n of the prices remain, or all if there are no more |
| Relayer.CalcMedian | pkg/price/relayer/relayer.go:371-386 | permutes the prices and returns the middle of any ordered permutation of their values, zero for none |
| Relayer.CalcSpread | pkg/price/relayer/relayer.go:390-401 | the relative distance of the median in percent, infinite for no prices or a zero oracle price |
| Relayer.SpreadReachesExactly | pkg/price/relayer/relayer.go:204-206 | the update is due by spread exactly when a hundred times the distance to the median is at least the limit times the oracle price's magnitude, or there is no price to compare |
| Relayer.MedianValRobust | pkg/price/relayer/relayer.go:371-386 | if more than half of the prices lie in an interval, so does the median |
| Relayer.FiltersSelect | pkg/price/relayer/relayer.go:187-191 | in a sound book the two filters leave exactly one price per eligible entry, by different signers |
| Relayer.Relayer.Select | pkg/price/relayer/relayer.go:170-196 | the chosen prices are different eligible entries, as many as there are but at most the quorum |
| Relayer.Relayer.Update | pkg/price/relayer/relayer.go:204-241 | an update is sent, refused or not needed exactly as expiry, spread and quorum say, with the chosen prices in order of value |
| Relayer.Relayer.Relay | pkg/price/relayer/relayer.go:162-242 | the whole relay ends for an unknown pair, a failed read and a negative quorum, in that order; otherwise it yields a result that the model allows for the eligible prices, and a sent update has the quorum's number of them |
| Relayer.MarketDecides | pkg/price/relayer/relayer.go:187-241 | whichever prices the shuffle leaves: if the oracle has expired, or every median within the bounds of the eligible prices is spread enough, an update is sent exactly when there are enough of them; if it has not and no such median is, none is sent |
| PriceFlow.RelayIsWellFormed | pkg/price/relayer/relayer.go:162-242 | an update that is sent is well formed with respect to the arrivals and feeder list of that moment |
| PriceFlow.UpdatesAreWellFormed | pkg/price/relayer/relayer.go:162-257 | over any run of collecting, list updates and relays, every update has exactly the quorum of prices in order of value, by different listed signers, all for the pair, positive, not before the oracle's age, each its signer's latest |
| PriceFlow.UpdatesAreRobust | pkg/price/relayer/relayer.go:162-242 | over any run, if fewer than half of the quorum's number of feeders are corrupt, the median of every update lies among the prices that the other listed feeders sent for the pair |
| PriceFlow.RunHasArrivals | pkg/price/store/store.go:157-169 | over any run, the arrivals are those of its steps, in order |
| PriceFlow.RunHasUpdates | pkg/price/relayer/relayer.go:219-241 | the updates are exactly those its relays sent, in order |
| PriceFlow.RunHasFeeders | pkg/price/relayer/relayer.go:244-257 | each pair has the feeder list that was read for it last, and keeps its spread and expiration |
| PriceFlow.UpdateRecords | pkg/price/relayer/relayer.go:162-242 | an update goes by the quorum, age and feeder list of its relay |
| PriceFlow.Serve | pkg/price/relayer/relayer.go:162-257 | store and relayer over one storage, for any order of arriving prices, feeder lists and due relays: the calls sent are those of a run of the model, with a step for each happening, and all are well formed |
| RedisStore.Storage.GetAvailMem | pkg/event/store/redis/redis.go:242-265 | the limit less the sum of the author's unexpired buckets, whatever the scan order; zero without a limit |
| RedisStore.Storage.IncrMemUsage | pkg/event/store/redis/redis.go:275-289 | the bucket of the event's date grows by the amount, an expired one from zero, and gets its expiry time |
| RedisStore.Storage.Put | pkg/event/store/redis/redis.go:198-199 | the event is stored with its expiry time, or is gone at once if that is past |
| RedisStore.Storage.Add | pkg/event/store/redis/redis.go:156-214 | refused exactly when the author's remaining space is too small, created when no unexpired event has the key, updated when that event's message date is earlier, else kept; a refused or kept message changes nothing, another one is stored with its expiry and charged by its size or the difference |
| RedisStore.StoredIsNewest | pkg/event/store/redis/redis.go:156-214 | over any messages in order of time, every unexpired event is the first arrival of the greatest message date among the messages for its key that were not refused since the key was last absent |
| RedisStore.BucketOutlivesEvent | pkg/event/store/redis/redis.go:283-285 | a bucket expires no earlier than any event it accounts for, with truncating division for negative dates |
| RedisStore.IndexExactly | pkg/event/store/redis/redis.go:269-289 | a date's bucket is its hour, truncated towards the epoch |
| RedisStore.ExpiryExactly | pkg/event/store/redis/redis.go:275-289 | a bucket expires a TTL after its hour's end and an event a TTL after its date, in whole seconds |
| RedisStore.AddKeepsSound | pkg/event/store/redis/redis.go:156-214 | a message whose date falls into its event's bucket keeps every bucket at least the unexpired bytes it covers and every author's usage within the limit |
| RedisStore.TimeKeepsSound | pkg/event/store/redis/redis.go:269-285 | so does the passage of time, although buckets expire |
| RedisStore.BytesWithinUsage | pkg/event/store/redis/redis.go:242-289 | then an author's unexpired bytes are at most its usage, which is at most the limit |
| RedisStore.LimitHolds | pkg/event/store/redis/redis.go:156-289 | after any messages in order of time whose dates for one event share a bucket, and any time later, the same bounds hold |
| RedisStore.LimitHoldsExactly | pkg/event/store/redis/redis.go:156-289 | for any rule on the dates an event's messages may carry, the bounds hold in every run that obeys it if and only if it allows each event one bucket only |
| RedisStore.MovedDateEscapes | pkg/event/store/redis/redis.go:194-199 | for any two dates of one event in different buckets, two messages drive the usage below the unexpired bytes |
| Interpolate.Parser.NextToken | pkg/util/interpolate/interpolate.go:249-255 | consumes the token exactly when it comes next |
| Interpolate.Parser.NextBytesUntilAnyOf | pkg/util/interpolate/interpolate.go:233-245 | returns at least one byte, up to the first stop byte after it |
| Interpolate.Parser.ParseDefault | pkg/util/interpolate/interpolate.go:200-218 | reads the default value the grammar defines and stops before its closing brace |
| Interpolate.Parser.ParseVariable | pkg/util/interpolate/interpolate.go:168-198 | appends the variable the grammar defines, or takes the opening as literal and goes back to just after it |
| Interpolate.Parser.ParseBackslash | pkg/util/interpolate/interpolate.go:160-166 | takes the next byte, or a final backslash, as literal |
| Interpolate.Parser.Parse | pkg/util/interpolate/interpolate.go:145-158 | terminates despite the jumps back, with the parts the grammar defines |
| Interpolate.ParseString | pkg/util/interpolate/interpolate.go:34-56 | both dialects' entry points return the grammar's parts |
| Interpolate.Interpolate | pkg/util/interpolate/interpolate.go:68-79 | renders literals as they are and variables by the mapping, in order |
| Interpolate.ParseUndoesPrint | pkg/util/interpolate/interpolate.go:145-218 | every normal list of parts is recovered from its printed form with backslash escapes |
| Interpolate.ParseIsNormal | pkg/util/interpolate/interpolate.go:145-281 | every parse is normal, so printing and parsing it again gives it back |
| Interpolate.ParseKeepsTextExactly | pkg/util/interpolate/interpolate.go:145-218 | a string is reproduced by writing out its parse, unclosed variables included, if and only if no byte before its last one is a backslash |
| Interpolate.EscapedIsLiteral | pkg/util/interpolate/interpolate.go:160-166 | escaped text holds no variable and renders as itself under every mapping |
| EvmScanner.SplitBlockRanges | pkg/event/publisher/teleportevm/teleport.go:362-381 | partitions the range in ascending order; all pieces but the last are of the limit, none longer, unless the range has one block too many and is kept whole |
| EvmScanner.BlocksExactly | pkg/event/publisher/teleportevm/teleport.go:362-381 | a range stands for its first to its last block, one by one |
| EvmScanner.FetchEventsRoutine | pkg/event/publisher/teleportevm/teleport.go:180-212 | for any observed heads, the latest block is the highest of the first head and those heads, and the requested ranges concatenate to exactly the confirmed blocks from the first head to it, each once and ascending, none over the limit plus one |
| EvmScanner.PrefetchEventsRoutine | pkg/event/publisher/teleportevm/teleport.go:152-176 | the ranges partition the blocks downward from the confirmed head until block zero or a block older than the period; with a head below the confirmations one degenerate range is requested |
| EvmScanner.ScanBlocks | pkg/event/publisher/teleportevm/teleport.go:152-212 | both loops, each on the heads it reads, the latest block being the highest of those the fetch loop saw: from the lowest prefetched block to the latest confirmed one none is left out if and only if the prefetch head is at least the fetch head; a prefetch head without confirmed blocks leaves block zero on to the fetch loop |
| StarknetScanner.EventProvider.IsTeleportEvent | pkg/event/publisher/teleportstarknet/teleport.go:291-298 | holds exactly for events of the configured addresses |
| StarknetScanner.EventProvider.CheckPending | pkg/event/publisher/teleportstarknet/teleport.go:254-267 | a remembered transaction is skipped, another is remembered |
| StarknetScanner.EventProvider.HandleEvents | pkg/event/publisher/teleportstarknet/teleport.go:272-285 | sends one message, in order, for exactly those events of the transaction that are of a configured address and have at least seven data items |
| StarknetScanner.EventProvider.ProcessBlock | pkg/event/publisher/teleportstarknet/teleport.go:229-287 | the loops with their list of hashes refine the fold over a set of hashes, and the sent messages are those of its log |
| StarknetScanner.PendingSentOnce | pkg/event/publisher/teleportstarknet/teleport.go:240-270 | over any interleaving of blocks, while all pending blocks have one and the same parent hash, each transaction of each of them is sent exactly once for a pending block |
| StarknetScanner.NeverTwice | pkg/event/publisher/teleportstarknet/teleport.go:240-270 | for any transaction, no pending block of such a stretch makes it sent a second time |
| StarknetScanner.NewParentSendsAgain | pkg/event/publisher/teleportstarknet/teleport.go:245-248 | a pending block on another parent than the last one sends each of its transactions once again |
| StarknetScanner.AcceptedSendsAll | pkg/event/publisher/teleportstarknet/teleport.go:250-286 | an accepted block sends all of its transactions and leaves the pending tracking alone |
| StarknetScanner.TrackingDecides | pkg/event/publisher/teleportstarknet/teleport.go:240-286 | what a block adds depends only on the pending tracking, not on what was sent before |
| HexCodec.HexToBigInt | pkg/rpcsplitter/types/util.go:133-155 | the decoder with its shortcut returns the number the text denotes, or fails |
| HexCodec.SpelledIsNumber | pkg/rpcsplitter/types/util.go:133-155 | an optional minus sign, an optional prefix, an optional sign of the library and one or more digits are the digits' number, negated once for each minus sign |
| HexCodec.NumberIsSpelled | pkg/rpcsplitter/types/util.go:133-155 | no other text is a number |
| HexCodec.CaseIsIgnored | pkg/rpcsplitter/types/util.go:133-185 | a text and its lower-case form denote the same number and the same bytes, or neither |
| HexCodec.IntegerRoundTrip | pkg/rpcsplitter/types/util.go:119-155 | every integer is recovered from its text |
| HexCodec.QuantityIsCompact | pkg/rpcsplitter/types/util.go:119-129 | a non-negative number's text is prefixed, in lower case and without a leading zero, zero being "0x0" (EIP-1474, "Value encoding"); a negative one's has a minus sign before it |
| HexCodec.UnquoteExactly | pkg/rpcsplitter/types/util.go:190-206 | any text comes back from between double quotes, and one without them is taken as it is |
| HexCodec.JsonIntegerRoundTrip | pkg/rpcsplitter/types/util.go:86-114 | the same through quoting and unquoting, and without quotes |
| HexCodec.BytesToHex | pkg/rpcsplitter/types/util.go:159-164 | fills the prefix and two lower-case digits per byte |
| HexCodec.HexToBytes | pkg/rpcsplitter/types/util.go:169-182 | decodes with optional prefix and odd length, and fails exactly on a byte that is no digit |
| HexCodec.BytesExactly | pkg/rpcsplitter/types/util.go:169-182 | after the optional prefix exactly digits are accepted, and they become one byte for each two of them, rounded up, that stand for the digits' number |
| HexCodec.BytesRoundTrip | pkg/rpcsplitter/types/util.go:159-182 | every byte string is recovered from its text |
| HexCodec.DecodersAgree | pkg/rpcsplitter/types/util.go:133-182 | a non-empty text that decodes to bytes denotes, as an integer, the number these bytes stand for |
| HexCodec.FixedBytesUnmarshalText | pkg/rpcsplitter/types/util.go:71-81 | the target is filled from the right and keeps its other bytes; it is untouched on an error or when the data are too long |
| HexCodec.ZeroPadding | pkg/rpcsplitter/types/util.go:79-79 | leading zero bytes do not change the number that bytes stand for, so decoding into a zeroed array keeps it |
| HexCodec.BlockRoundTripExactly | pkg/rpcsplitter/types/blocknumber.go:105-140 | a block number is recovered from its text if and only if it is at most the largest int64 and not taken for another tag by its low bits |
| HexCodec.BlockRoundTripInt64 | pkg/rpcsplitter/types/blocknumber.go:105-140 | in particular every int64, the three tags included |
| HexCodec.TagTexts | pkg/rpcsplitter/types/blocknumber.go:105-140 | the three tags have their names, and white space around a name is ignored |
| HexCodec.HexIsNoTag | pkg/rpcsplitter/types/blocknumber.go:120-140 | a number's text is read as that number, or refused beyond the largest int64 |
| HexCodec.SpacedNumberFails | pkg/rpcsplitter/types/blocknumber.go:120-140 | white space before a number is refused |
| EventMemory.MemoryStorage.Add | pkg/event/store/memory.go:51-65 | a missing or older entry is replaced, anything else is kept; the answer tells whether the key was missing |
| EventMemory.MemoryStorage.Get | pkg/event/store/memory.go:68-80 | after any calls, returns for each event of the index that was added and not collected since the first arrival of its newest message, and nothing else |
| EventMemory.MemoryStorage.CountExpired | pkg/event/store/memory.go:90-95 | tells all, some or none expired apart |
| EventMemory.MemoryStorage.DeleteDue | pkg/event/store/memory.go:102-106 | deleting while iterating leaves exactly the events that are not due |
| EventMemory.MemoryStorage.SweepBucket | pkg/event/store/memory.go:88-108 | a bucket is deleted, thinned out or left |
| EventMemory.MemoryStorage.Gc | pkg/event/store/memory.go:83-109 | every gcevery-th call sweeps every bucket once, other calls only count |
| EventMemory.SweepExactly | pkg/event/store/memory.go:88-108 | an event is removed exactly when its age is at least the TTL and its bucket holds one beyond it, and no other event changes |
| EventMemory.SweepLeavesNoneExpired | pkg/event/store/memory.go:88-108 | after a sweep no event beyond the TTL is left |
| EventMemory.EntriesAreNewest | pkg/event/store/memory.go:51-65 | over any run, each entry is the first arrival of the newest message for its key since the key was last collected |
| EventMemory.SweptOnSchedule | pkg/event/store/memory.go:60-87 | right after every gcevery-th accepted message, counted as those for a missing event or with a later message date than the stored one, no event beyond the TTL is left |
| EventMemory.GoneOnSchedule | pkg/event/store/memory.go:60-87 | an event disappears only by such a message |
| EventMemory.YoungEventsStay | pkg/event/store/memory.go:83-109 | a call for another key neither removes nor changes an event younger than the TTL |
| WebApi.WebAPI.ConsumeHandler | pkg/transport/webapi/webapi.go:465-493 | after any requests, one gets through if and only if its author is allowed, its timestamp is in the window and it keeps the gap to the author's last one that got through; each refusal names the first reason, and refused requests leave no trace |
| WebApi.AdmittedAreSpaced | pkg/transport/webapi/webapi.go:472-493 | over any run, timestamps admitted from one author keep the gap, and each is in the window around its arrival |
| WebApi.AdmissionsBounded | pkg/transport/webapi/webapi.go:472-493 | a window of length W admits at most (W + flush + 2 skew) / (flush - skew) + 1 requests of an author |
| WebApi.BoundedExactly | pkg/transport/webapi/webapi.go:472-493 | admissions in a window are bounded if and only if the flush interval exceeds the skew, or no whole second is a valid timestamp in it |
| WebApiProducer.Producer.FlushMessages | pkg/transport/webapi/webapi.go:331-367 | sends exactly the messages accepted since the last flush, per topic and in order, if there are any; they are cleared even on a failure |
| WebApiProducer.NothingDropped | pkg/transport/webapi/webapi.go:296-338 | per topic, the packs of all flushes followed by the pending pack are the accepted broadcasts in order |
| WebApiProducer.DeliveredExactly | pkg/transport/webapi/webapi.go:331-367 | the packs that were sent, followed by the pending one, are all broadcasts if and only if no flush failed after a message was accepted since the flush before it |
| WebApiProducer.FailedFlushLoses | pkg/transport/webapi/webapi.go:333-336 | whatever happened before, a message whose flush fails is neither sent nor pending |

## Left out

- I/O, HTTP, JSON-RPC, libp2p, gzip, protobuf, configuration and command line: a message's size is a natural number, a failed read is an absent value.
- Cryptography: signature recovery is a deterministic partial function, and hashed keys are their unhashed parts; a recoverable signature is taken to fit the contract's 32-byte words.
- pkg/supervisor (`serviceMonitor`) and `gcdTTL` of the price graph are not part of this model.
- `taggedBlockToNumber` of the RPC-Splitter: a translation of arguments around the call that is modelled.
- Compare: nil interfaces inside structures, floating-point values, slices of different length at one address, functions and channels; an address determines what a pointer, slice or map of one type holds.
- Resolver: an error's type is taken to differ from every result's type; the addresses of the numbers that resolvers allocate are not modelled.
- SplitterCall: the endpoints' calls are responses in some order of arrival; cancellation of the context and logging are not modelled.
- Relayer.CalcSpread: computed over real numbers, without the rounding of `big.Float` and `float64`.
- Relayer: the simulation and sending of the transaction after `Poke` prepared its arguments; retries after an error.
- Replayer: an element removed twice, and cancellation while the output channel blocks.
- FanOut, FanIn: scheduling is any interleaving of atomic steps; a send counts as received.
- RedisStore: the transaction of `Add` is one atomic step, retries and cluster scanning are left out; a key is gone from its expiry instant on; buckets whose text is no number are not modelled.
- EvmScanner: the requests themselves, their retries and the decoding of logs; `d` does not wrap around at 64 bits.
- StarknetScanner: conversion of an event fails only when it has fewer than seven data items; the packing of its data is not modelled.
- HexCodec.HexToBytes: on an error the partly decoded bytes are not described, only that the call fails.
- EventMemory: one current time is taken for each pass of the collector.
- WebApi: handlers are atomic, and what follows the admission (body, message signatures, delivery) is not modelled; clocks are taken to be past the year one.
- WebApiProducer: what signing, compressing and sending a pack does; a flush is ready or fails.
