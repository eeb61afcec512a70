# Verified models of the node's wallet, lock, fee and wire components

This project models six parts of the node and proves what they are for.

* **Recently-spent outputs** (`SpendGraph`, `SpentRecord`, `Substitution`, `Ledger`, `PendingWithdraws`, `WalletRuns`,
  `RecentlySpentOutPoints`). A backend lists outputs that the wallet has spent already. The wallet keeps two
  maps, flattened in place on every spend, and rewrites a listing through them until nothing in it is spent.
  The maps are compared with the plain graph of the recorded transactions: whatever order the transactions were
  recorded in, and however often, substitution follows that graph. Recorded as they happen, any earlier listing
  becomes the current ledger. Withdraws that are signed but not yet broadcast feed the record later. After any run
  the answer to a listing is told by the signed transactions alone: their inputs and the outputs they pay.
* **Activation locks** (`ActivationProtocol`, `ActivationLocks`). Tasks look up per-ticker mutexes in a registry
  of weak references, wait, hold, and let go one lock after the other, in every interleaving, with cancellation.
* **Fee readings** (`FeeLifetime`, `FeeCache`, `FeeEstimateCache`, `FeeScope`, `ScopeStack`, `ScopedReadings`).
  A cache with adaptive lifetimes, requests whose consumers share one reading, the scope carried by polling, and
  what readings inside and outside a request do to the cache.
* **Capability word** (`Msgpack`, `MsgpackValues`, `Utf8`, `Parsing`, `ByteOrder`, `CapabilityWord`,
  `CapabilityMessages`). The bounds check of a peer's MessagePack value, the canonical writer of the word and its
  fail-closed reader, each compared with MessagePack values and their encodings written out marker by marker.
* **`SendAll`** (`SendAll`). A polled state machine with a one-item buffer against any sink and stream.
* **Money** (`DexFee`, `KmdInterest`, `TxFee`). The DEX-fee split over rationals, the KMD reward in 64-bit
  arithmetic, and fees by size with saturation.

Classes keep the fields the program updates in place, and each of their methods is proved against a function on
values; the properties are proved about those functions over whole runs. Protocols are state machines over
atomic steps. `dafny verify dfyconfig.toml` checks everything.

## Modelling decisions

* An output is an outpoint and a value. Transactions are compared by their inputs and by their outputs paying to
  the wallet's script, and may be recorded repeatedly. `NoCycle` asks that spends can be given heights that
  descend, which hash references guarantee. Two signed withdraws can spend the same output, so termination and
  safety ask for nothing more; `Consistent` adds that no output is spent by two different transactions, where
  the result is to be named by the transactions alone.
* A digest of transaction bytes is the bytes themselves (an injective digest). Clocks are parameters and may
  step back, except where a statement says otherwise.
* `HashSet` and `HashMap` iteration is an arbitrary choice of the next element, so results hold for every order.
* A mutex is an identifier; it is alive while a task holds it or waits for it. Dropping a guard releases its
  locks one by one. A failure of the registry lock is a drop of the task at its lookup.
* A stored fee value carries its type, and a lookup or a slot of another type misses, as a failed downcast does.
  One reading per request holds in every run exactly if no reading may be asked for at two types.
* Sinks and streams answer from finite scripts of any answers; when a script is used up they are not ready. A
  sink remembers the calls made to it and a stream how often it was polled, so that a contract can say which.
* The additions in the two KMD accrual times wrap around at 64 bits, since the build profiles leave overflow
  checks off. The reported times are right exactly when they do not wrap, and that is what is proved. Every caller
  widens a 32-bit lock time (`mm2src/coins/utxo.rs:1905`,
  `mm2src/kdf_rpc_types/src/v1/types/transaction.rs:215`), so in the program they never wrap.
* The MessagePack markers are one table of families in ascending order
  (`mm2src/common/msgpack_bounds.rs:64-116`); a marker's meaning is given by its position in its family. The
  encodings it is compared with name every marker and every form of a length themselves.
* UTF-8 is recognised by the Unicode standard's table of well-formed byte sequences.
* `mm2src/coins/activation_locks.rs:45-46` promises that two activations cannot deadlock each other; it is
  proved for any number of tasks, each waiting for one guard at a time.

## Model

| member | source | states |
|---|---|---|
| SpendGraph.EndsAfterSpend | mm2src/coins/utxo.rs:401-406 | spending unspent outputs changes the ends reached from any output exactly by passing through the new transaction |
| SpendGraph.SameEnds | mm2src/coins/utxo.rs:401-406 | a compressed graph whose rows stand correctly for their keys reaches the same unspent outputs as the plain one |
| SpentRecord.RedirectedRow | mm2src/coins/utxo.rs:518-530 | replacing spent outputs in a row by what they were spent into keeps what the row stands for |
| SpentRecord.FaithfulAfter | mm2src/coins/utxo.rs:495-541 | recording one transaction, new or known, keeps the invariant of both maps |
| SpentRecord.FaithfulAlways | mm2src/coins/utxo.rs:495-541 | the invariant holds after consistent transactions recorded in any order |
| SpentRecord.SpendsAre | mm2src/coins/utxo.rs:402-405 | the plain spend graph maps every spent output to the outputs of its spender, whatever the order |
| SpentRecord.RankedAlways | mm2src/coins/utxo.rs:515-541 | both maps keep descending heights under any recording without a cycle, double spends included |
| SpentRecord.KeysAre | mm2src/coins/utxo.rs:535-541 | the keys of the record are exactly the outputs some recorded transaction spends |
| SpentRecord.SoundAlways | mm2src/coins/utxo.rs:515-541 | each map relates only outputs that a chain of recorded transactions relates |
| Substitution.HaltsByChainLength | mm2src/coins/utxo.rs:543-567 | the number of rounds is the length of the longest chain of spends that starts in the listing |
| Substitution.TerminatesExactlyWithoutCycles | mm2src/coins/utxo.rs:543-567 | the recursion returns if and only if no cycle of spends is reachable from the listing |
| Substitution.RecordTerminates | mm2src/coins/utxo.rs:543-567 | it returns on every listing after any recording of transactions without a cycle, in any order and with double spends |
| Substitution.ReplaceIs | mm2src/coins/utxo.rs:543-567 | the result is exactly the listed outputs that are not keys and, without height, the ends of those that are |
| Substitution.SubstitutionFollowsTheTransactions | mm2src/coins/utxo.rs:495-567 | for transactions recorded in any order, the result is exactly the unspent listed outputs and the unspent descendants, by transactions, of the spent ones |
| Substitution.OrderAndRepetitionDoNotMatter | mm2src/coins/utxo.rs:495-567 | two recordings of the same set of transactions answer every listing alike |
| Substitution.NoSpentOutputIsReturned | mm2src/coins/utxo.rs:398-400 | no output spent by a recorded transaction is ever returned, whichever recorded transactions spend the same outputs |
| Substitution.ReturnedIsListedOrDescended | mm2src/coins/utxo.rs:543-567 | whatever was recorded, a returned output was listed or was made out of a listed one by recorded transactions |
| Ledger.StaleListingBecomesCurrent | mm2src/coins/utxo.rs:398-400 | a listing of any earlier moment becomes exactly the current unspent set of the plain ledger |
| Ledger.EarlierUnspentEndsInCurrent | mm2src/coins/utxo.rs:398-400 | followed through the spends, the unspent set of any moment ends in exactly the current one |
| Ledger.AnyListingIsSafe | mm2src/coins/utxo.rs:398-400 | a listing that mixes outputs of any moments yields only outputs that are unspent now |
| Ledger.RecordIsIndexed | mm2src/coins/utxo.rs:515-541 | one map is exactly the unspent descendants of every spent output, the other exactly the ancestors of every recorded output |
| Ledger.OneRoundSuffices | mm2src/coins/utxo.rs:562-566 | under chronological recording no replacement is a key and one round is the whole substitution |
| PendingWithdraws.OwnOutputsByPosition | mm2src/coins/utxo.rs:497-513 | the outputs kept are exactly those paying to the script, each named by its position |
| PendingWithdraws.RunIsBounded | mm2src/coins/utxo.rs:462-473 | in every run there are at most 64 pending entries, with distinct sequence numbers |
| PendingWithdraws.NewestIsCapped | mm2src/coins/utxo.rs:463-473 | keeping the entries that fewer than 64 are newer than keeps at most 64 |
| PendingWithdraws.EntryLivesUntilEnded | mm2src/coins/utxo.rs:425-474 | an entry followed by fewer than 64 notes is there exactly until an operation replaces it, consumes it or comes 600,000 ms after it was made |
| PendingWithdraws.PromotedWithinTenMinutes | mm2src/coins/utxo.rs:484-493 | a promotion succeeds exactly for a pending entry made less than 600,000 ms ago |
| PendingWithdraws.NotedThenPromoted | mm2src/coins/utxo.rs:425-493 | a withdraw noted at t is promoted at now exactly if nothing ended its entry meanwhile and now is before t + 600,000 |
| PendingWithdraws.PromotedAtMostOncePerNote | mm2src/coins/utxo.rs:484-493 | promotions of a withdraw, and its presence, never exceed the number of times it was noted |
| PendingWithdraws.RunRecordsEntered | mm2src/coins/utxo.rs:476-493 | the record of a run is the record of the transactions added or promoted, in the order they were entered |
| PendingWithdraws.RunSubstitution | mm2src/coins/utxo.rs:425-567 | after any run without a cycle substitution returns and returns nothing spent; without double spends it answers from the entered transactions alone, late promotions included |
| PendingWithdraws.RunStaleListing | mm2src/coins/utxo.rs:425-567 | after a run entered chronologically, an earlier listing becomes the current ledger |
| WalletRuns.RecordedInputs | mm2src/coins/utxo.rs:495-541 | after any run the keys of the record are exactly the inputs, by outpoint and value, of the transactions entered, mined or not |
| WalletRuns.NoInputIsOfferedAgain | mm2src/coins/utxo.rs:398-400 | after any run without a cycle, no output that an entered transaction consumed is returned |
| WalletRuns.RunReturnsExactly | mm2src/coins/utxo.rs:425-567 | after any run without double spends the result is exactly the outputs nothing consumed that were listed, or that a path of entered transactions made out of listed ones |
| WalletRuns.StaleListingIsCurrent | mm2src/coins/utxo.rs:398-400 | if the transactions were entered in the order they happened, a listing of any earlier moment becomes exactly the outputs that exist and that nothing consumed |
| RecentlySpentOutPoints.RecentlySpent.constructor | mm2src/coins/utxo.rs:415-423 | a new record is empty |
| RecentlySpentOutPoints.RecentlySpent.PurgePendingWithdraws | mm2src/coins/utxo.rs:426-429 | keeps exactly the entries made less than 600,000 ms ago |
| RecentlySpentOutPoints.RecentlySpent.DropOldest | mm2src/coins/utxo.rs:463-473 | dropping the oldest while there are too many leaves exactly the newest entries |
| RecentlySpentOutPoints.RecentlySpent.NotePendingWithdraw | mm2src/coins/utxo.rs:445-474 | the in-place operation is the step on values: the record is untouched and the bounds are kept |
| RecentlySpentOutPoints.RecentlySpent.PromotePendingWithdraw | mm2src/coins/utxo.rs:484-493 | promotes exactly when a matching entry was made less than 600,000 ms ago, with the effect of recording its spend |
| RecentlySpentOutPoints.RecentlySpent.RedirectEarlierInputs | mm2src/coins/utxo.rs:515-530 | the nested loops, in any order of iteration, give the closed form of every row and of the inputs followed |
| RecentlySpentOutPoints.RecentlySpent.AddSpentOutputs | mm2src/coins/utxo.rs:495-541 | the in-place update is the recording of the transaction: every input becomes a key, whatever its height, and leads to the outputs that pay to the script |
| RecentlySpentOutPoints.RecentlySpent.ReplaceSpentOutputs | mm2src/coins/utxo.rs:543-567 | the recursive passes compute the substitution wherever it returns |
| ActivationProtocol.StepKeepsInv | mm2src/coins/activation_locks.rs:28-57 | every step keeps: handles are on registered mutexes, no mutex is held twice, tickers are ascending |
| ActivationProtocol.RunKeepsInv | mm2src/coins/activation_locks.rs:28-57 | the invariant holds over every interleaving |
| ActivationProtocol.MutualExclusion | mm2src/coins/activation_locks.rs:3-6 | after any run, no two tasks hold the lock of one ticker |
| ActivationProtocol.GuardCoversItsTickers | mm2src/coins/activation_locks.rs:43-57 | whatever happened before and since, a task holds only locks of the tickers it asked for, and with its guard exactly those |
| ActivationProtocol.HandlesAgree | mm2src/coins/activation_locks.rs:28-41 | after any run, every handle on the lock of a ticker is a handle on the registered mutex |
| ActivationProtocol.LookUpLeavesNoDeadEntry | mm2src/coins/activation_locks.rs:33-40 | a lookup leaves only entries somebody has a handle for |
| ActivationProtocol.WaitsAscend | mm2src/coins/activation_locks.rs:45-46 | who is waited for holds that ticker and waits, if at all, for a later one |
| ActivationProtocol.NoDeadlock | mm2src/coins/activation_locks.rs:45-46 | after any run, every set of tasks has one that waits for nobody in the set |
| ActivationProtocol.SomebodyAdvances | mm2src/coins/activation_locks.rs:47-57 | while there are tasks, one can step towards its end without anybody being cancelled |
| ActivationProtocol.EverybodyCanFinish | mm2src/coins/activation_locks.rs:47-57 | from every such state a schedule without cancellations lets every task get and release all its locks |
| ActivationProtocol.AfterAnyRunEverybodyCanFinish | mm2src/coins/activation_locks.rs:47-57 | the same after any run, whatever was cancelled before |
| ActivationLocks.Locks.Sweep | mm2src/coins/activation_locks.rs:33 | keeps exactly the entries with a live handle |
| ActivationLocks.Locks.Begin | mm2src/coins/activation_locks.rs:48-52 | asks for exactly the tickers given, each once, in ascending order |
| ActivationLocks.Locks.LockFor | mm2src/coins/activation_locks.rs:28-41 | the in-place lookup is the protocol step and leaves no dead entry |
| ActivationLocks.Locks.TryAcquire | mm2src/coins/activation_locks.rs:54 | acquires exactly when nobody holds the lock |
| ActivationLocks.Locks.DropTask | mm2src/coins/activation_locks.rs:21-25 | letting go lock by lock keeps the invariant and removes the task |
| FeeLifetime.StartSecs | mm2src/coins/request_fee_scope.rs:112-126 | the start value is between 2 and 600 |
| FeeLifetime.StartFollowsBlocktime | mm2src/coins/request_fee_scope.rs:109-126 | the first positive blocktime decides, in whole seconds, clamped to 2 to 600 |
| FeeLifetime.StartDefaults | mm2src/coins/request_fee_scope.rs:109-126 | without a usable blocktime the start is 15 seconds |
| FeeLifetime.LifetimePrecedence | mm2src/coins/request_fee_scope.rs:72-107 | coin, then platform, then node decide; invalid values disable; fixed lifetimes never exceed 600 |
| FeeLifetime.CoinDecides | mm2src/coins/request_fee_scope.rs:89-107 | a coin whose own configuration says something decides: 0 to 600 seconds, anything else turns the cache off |
| FeeLifetime.PlatformDecides | mm2src/coins/request_fee_scope.rs:89-107 | a coin that says nothing leaves it to its platform coin, within the same limits |
| FeeLifetime.NodeDecides | mm2src/coins/request_fee_scope.rs:72-88 | where neither says anything the node decides, with 0 to 30 seconds, and if it says nothing the lifetime adapts |
| FeeLifetime.BlocktimeDecides | mm2src/coins/request_fee_scope.rs:109-126 | the coin's positive blocktime, else its platform's, gives the start in whole seconds from 2 to 600 |
| FeeCache.CacheIsItsLog | mm2src/coins/request_fee_scope.rs:295-339 | an entry is determined by the readings stored since it was last removed |
| FeeCache.LifetimeCountsDueReadings | mm2src/coins/request_fee_scope.rs:203-210 | a lifetime is its start doubled, up to 600, once for every reading since the value last changed that came when the lifetime before it had run out |
| FeeCache.SteadyReadingsDouble | mm2src/coins/request_fee_scope.rs:313-321 | equal readings ten minutes apart double the lifetime every time, up to 600 |
| FeeCache.GrowthNeedsTime | mm2src/coins/request_fee_scope.rs:207-210 | under any clock a lifetime has grown by no more than the time that advanced with the same value |
| FeeCache.AdaptiveEvidence | mm2src/coins/request_fee_scope.rs:295-333 | over any run a lifetime is the start doubled up to 600, and with a clock that does not step back its growth is covered by the time the value did not change |
| FeeCache.CoveredExactlyWithoutStepBack | mm2src/coins/request_fee_scope.rs:313-323 | while a reading does not change, elapsed time covers the growth of its lifetime between any two readings exactly if the clock does not step back |
| FeeCache.SteppingBackLosesElapsedTime | mm2src/coins/request_fee_scope.rs:313-323 | for every start value from 1 to 599, a clock stepping back by which the lifetime grows with no time elapsed |
| FeeCache.LookUpExactly | mm2src/coins/request_fee_scope.rs:274-291 | a value is found exactly when the last store after every removal gave it, not after now and less than the asking coin's fixed seconds, or the start doubled for every due reading, ago |
| FeeCache.FixedLookUp | mm2src/coins/request_fee_scope.rs:282-289 | a coin with a fixed lifetime finds a value exactly within its own seconds, whatever the reading has grown to |
| FeeCache.ConfiguredLookUp | mm2src/coins/request_fee_scope.rs:221-241 | in a node, a coin configured with n seconds finds a value exactly within n seconds of the last store |
| FeeCache.FirstReadingLivesABlock | mm2src/coins/request_fee_scope.rs:221-241 | in a node that configures nothing, the first reading of a coin is found for exactly its blocktime |
| FeeCache.NodeLifetimesAreBounded | mm2src/coins/request_fee_scope.rs:221-241 | in a node no reading is used for more than 600 seconds |
| FeeCache.BoundedStaleness | mm2src/coins/request_fee_scope.rs:195-201 | a value found was stored within the lifetime and after the coin was last forgotten |
| FeeEstimateCache.Cache.Find | mm2src/coins/request_fee_scope.rs:274-291 | finds a value exactly when the last store under the key, after every removal, gave it within the asking coin's lifetime |
| FeeEstimateCache.Cache.Keep | mm2src/coins/request_fee_scope.rs:295-333 | the map stays what the operations so far make it, and the growth of the kept lifetime is covered by the time the value did not change |
| FeeEstimateCache.Cache.DiscardKey | mm2src/coins/request_fee_scope.rs:336 | nothing stored under the key before counts any more, and every other key keeps its readings |
| FeeEstimateCache.Cache.ForgetCoin | mm2src/coins/request_fee_scope.rs:339 | nothing stored for the coin before counts any more, and every other coin keeps its readings |
| FeeScope.NextKeepsInv | mm2src/coins/request_fee_scope.rs:455-483 | every step of every consumer keeps the invariant of slots, log and cache |
| FeeScope.OneReadingPerRequest | mm2src/coins/request_fee_scope.rs:445-454 | if each reading is asked for at one type, then over any interleaving all consumers of a request get one value of it, and at most one of them fetched it or took it from the cache |
| FeeScope.OneReadingExactlyWithOneType | mm2src/coins/request_fee_scope.rs:445-482 | every run within a policy has one reading per request if and only if the policy allows no reading at two types |
| FeeScope.TwoTypesFetchTwice | mm2src/coins/request_fee_scope.rs:466-482 | for any two types allowed for a reading there is a run in which two consumers of one request both fetch it |
| FeeScope.FailureIsNotRemembered | mm2src/coins/request_fee_scope.rs:454 | a failed or cancelled consumer changes neither the cache nor any slot's value |
| FeeScope.TurnByCases | mm2src/coins/request_fee_scope.rs:464-477 | a consumer takes its request's value if that is of its type, else a cached one young enough for its own coin, which then is the request's value, and fetches only if there is neither |
| FeeScope.FetchIsKept | mm2src/coins/request_fee_scope.rs:478-483 | a fetched value becomes the request's value and, if the request has the cache, is stored for the asking coin |
| FeeScope.LaterRequestReuses | mm2src/coins/request_fee_scope.rs:449-454 | for any reading and any coin with a fixed lifetime, a later request within it takes the value an earlier one fetched, from the cache and without a fetch |
| FeeScope.RemovalTakesEffect | mm2src/coins/request_fee_scope.rs:336-339 | once a reading is discarded or its coin forgotten, no consumer is served from what was stored before |
| FeeScope.NobodyIsStuck | mm2src/coins/request_fee_scope.rs:464-483 | after any run a waiting consumer can take its turn, or can as soon as the one that is fetching has its value, has failed or is cancelled |
| FeeScope.ValuesAreFresh | mm2src/coins/request_fee_scope.rs:195-201 | whatever types are asked for, a value was fetched by its own request, or taken within the asking coin's lifetime of at most 600 seconds and stored after every earlier removal |
| ScopeStack.Thread.Poll | mm2src/coins/request_fee_scope.rs:368-400 | a poll restores the scope, also after a panic, and every reading sees the innermost scope around it |
| ScopeStack.Thread.PollInside | mm2src/coins/request_fee_scope.rs:374-386 | the guard puts the scope in place and takes it back |
| ScopeStack.Thread.Execute | mm2src/coins/request_fee_scope.rs:10-19 | however polls follow each other, each starts and ends outside every scope |
| ScopeStack.ReadingSeesItsScope | mm2src/coins/request_fee_scope.rs:389-415 | however futures and requests nest around it, a reading sees the innermost carried scope, else the scope in place, else the outermost request |
| ScopedReadings.OnlyRequestsTouchTheCache | mm2src/coins/request_fee_scope.rs:451-463 | however polls interleave with everything else, a stored reading was asked for inside a request, and whoever got a value asked for it inside the request that handed it out |
| ScopedReadings.PlainCodeNeverTouchesTheCache | mm2src/coins/request_fee_scope.rs:9-16 | code polled outside every request, spawned tasks included, leaves the cache empty and gets nothing from it |
| ScopedReadings.OutsideReadingsChangeNothing | mm2src/coins/request_fee_scope.rs:451-463 | in any run, requests and cache are as if the readings made outside had not happened |
| Msgpack.Walk | mm2src/common/msgpack_bounds.rs:119-168 | the iterative walk with 64 counters gives the verdict of the recursive descent, error for error, with end and depth |
| Msgpack.Advance | mm2src/common/msgpack_bounds.rs:125-167 | each turn of the walk gives the verdict or moves on with the rest of the check unchanged |
| Msgpack.CloseLevels | mm2src/common/msgpack_bounds.rs:157-166 | closing levels resumes the check where the recursion would |
| Msgpack.ValueStable | mm2src/common/msgpack_bounds.rs:10-12 | every verdict but "truncated" is independent of the bytes that follow |
| Msgpack.PrefixIsTruncated | mm2src/common/msgpack_bounds.rs:26-33 | every strict prefix of an accepted value is rejected as truncated |
| Msgpack.EncodedTreeIsChecked | mm2src/common/msgpack_bounds.rs:119-177 | headers and what they announce, nested as a tree, are walked to their exact end if they nest at most 64 deep and are too deep otherwise |
| Msgpack.AcceptedExactlyTheTrees | mm2src/common/msgpack_bounds.rs:119-177 | the check accepts exactly the bytes that begin with such a tree nesting at most 64 deep |
| MsgpackValues.EncodingIsChecked | mm2src/common/msgpack_bounds.rs:64-168 | every MessagePack value, in each of its encodings, is walked to its end with its depth, or is too deep beyond 64 |
| MsgpackValues.AcceptedExactlyTheValues | mm2src/common/msgpack_bounds.rs:64-168 | the check accepts exactly the bytes that begin with the encoding of a MessagePack value nesting at most 64 deep, with its length and depth |
| MsgpackValues.ReservedIsNamed | mm2src/common/msgpack_bounds.rs:85 | the reserved marker is reported as such |
| MsgpackValues.BeyondTheBytesIsTruncated | mm2src/common/msgpack_bounds.rs:132-148 | a length or count beyond the bytes that follow is truncated at once, whatever those bytes are |
| MsgpackValues.DeepHeaderIsTooDeep | mm2src/common/msgpack_bounds.rs:142-145 | an array or map inside 64 others is too deep, whatever it announces and whatever follows |
| ByteOrder.SortedUniqueBySet | mm2src/coins/coin_protocol_capability.rs:94-96 | the sorted list of keys depends only on the set |
| ByteOrder.LessIsLexicographic | mm2src/coins/coin_protocol_capability.rs:94-96 | the order is that of a dictionary: the first difference decides, a prefix comes first |
| Utf8.ValidExactlyTheEncodings | mm2src/coins/coin_protocol_capability.rs:248 | bytes are valid exactly if they encode a string of Unicode scalar values |
| CapabilityWord.Buffer.PushMapHeader | mm2src/coins/coin_protocol_capability.rs:111-126 | appends the narrowest map header that fits |
| CapabilityWord.Buffer.PushStr | mm2src/coins/coin_protocol_capability.rs:128-143 | appends the narrowest string header that fits and the string |
| CapabilityWord.AppendCapabilityWord | mm2src/coins/coin_protocol_capability.rs:97-109 | appends the word of the key set after the unchanged first value |
| CapabilityWord.LenIsRead | mm2src/coins/coin_protocol_capability.rs:219-251 | a length is read back from whichever form it was written in |
| CapabilityWord.DeclaresTheTrueKeys | mm2src/coins/coin_protocol_capability.rs:151-163 | a map with headers of any form and any values after any complete first value declares exactly the keys whose value is true, and what follows is ignored |
| CapabilityWord.AcceptedExactlyTheWords | mm2src/coins/coin_protocol_capability.rs:190-251 | the reader accepts exactly the bytes that begin with one complete value and a map of UTF-8 strings to complete values, with lengths in any form, and declares its true keys |
| CapabilityMessages.ReadsExactlyTheMessages | mm2src/coins/coin_protocol_capability.rs:190-251 | the reader accepts exactly one MessagePack value followed by a map from UTF-8 strings to values, in any encoding, and declares exactly the keys that map to true |
| CapabilityMessages.WordIsWritten | mm2src/coins/coin_protocol_capability.rs:92-143 | the writer writes one map of the keys, without repetition and in ascending order, each to true, every length in its narrowest form |
| CapabilityWord.ReadWordByCursor | mm2src/coins/coin_protocol_capability.rs:190-204 | the cursor loop computes what the reader declares |
| CapabilityWord.RoundTrip | mm2src/coins/coin_protocol_capability.rs:92-163 | the reader returns exactly the set of keys written |
| CapabilityWord.WordIsCanonical | mm2src/coins/coin_protocol_capability.rs:94-96 | equal key sets give equal bytes and different ones different bytes |
| CapabilityWord.WordStable | mm2src/coins/coin_protocol_capability.rs:157-160 | what was accepted is accepted alike with more bytes after it |
| CapabilityWord.CutWordIsRejected | mm2src/coins/coin_protocol_capability.rs:157-160 | any accepted word, cut anywhere below its own length, is rejected and declares nothing |
| CapabilityWord.TruncationDeclaresNothing | mm2src/coins/coin_protocol_capability.rs:157-160 | cut anywhere, a written word declares nothing |
| CapabilityWord.ReadWord | mm2src/coins/coin_protocol_capability.rs:190-204 | a word ends after its first value and within the bytes |
| CapabilityWord.ClassifierAgreesWithReader | mm2src/coins/coin_protocol_capability.rs:165-188 | the status is a good word exactly when the reader finds one; otherwise nothing is declared |
| CapabilityMessages.StatusByMessages | mm2src/coins/coin_protocol_capability.rs:165-188 | there is no word exactly without information or with one value and nothing else, and a good one exactly when a value is followed by a word; all else is malformed |
| SendAll.SendAllFuture.constructor | mm2src/common/custom_futures.rs:113-119 | starts with everything still in the stream |
| SendAll.PolledThenRest | mm2src/common/custom_futures.rs:167-191 | the items polled so far and those still to come are what the stream delivers |
| SendAll.SendAllFuture.TryStartSend | mm2src/common/custom_futures.rs:138-145 | a busy sink's item is buffered, an accepted one is appended to what the sink took, a refused one is neither |
| SendAll.SendAllFuture.Poll | mm2src/common/custom_futures.rs:167-191 | accepted and buffered items are exactly the polled ones in order; success means all were accepted and the sink closed; a failure returns the stream right after the polled events and is the sink's last answer, with the refused item lost, or the stream's own error, with nothing lost; "not ready" only if somebody was not |
| SendAll.SendAllFuture.FailureLosesAtMostTheRefused | mm2src/common/custom_futures.rs:91-96 | after a failure, the accepted items, the item refused just now if one was, and what the returned stream still delivers are all the items in order |
| SendAll.SendAllFuture.Drive | mm2src/common/custom_futures.rs:91-96 | the same over any number of polls, with the stream and the sink only moving forward |
| DexFee.OpReturnClosedForm | mm2src/coins/lp_coins_types.rs:311-354 | the three ranges are one formula for the fee leg, the burn leg and the total |
| DexFee.OpReturnMonotone | mm2src/coins/lp_coins_types.rs:311-354 | a larger total makes no leg smaller |
| DexFee.ClosedFormExactlyUpToTheWhole | mm2src/coins/lp_coins_types.rs:326-354 | with a positive dust the formula holds for every total exactly when the share is at most 1 |
| DexFee.BurnAccountConserves | mm2src/coins/lp_coins_types.rs:356-378 | the split spends exactly the fee, and splits exactly when both legs are positive and reach dust |
| DexFee.TakerSpends | mm2src/coins/lp_coins_types.rs:383-433 | the taker spends nothing, the base fee, or the base fee raised to dust, and when |
| DexFee.OpReturnOutputs | mm2src/coins/lp_coins_types.rs:326-354 | the direct burn pays one output, or the fee leg and the rest burnt by OP_RETURN, and when |
| DexFee.TakerFeeByCases | mm2src/coins/lp_coins_types.rs:383-408 | which outputs a taker pays by network, coin and burn key, the coin's own key before the network's |
| DexFee.HolderPaysNoFee | mm2src/coins/lp_coins_types.rs:410-433 | exactly the holder of the burn key, on a coin that is no privacy coin, pays no fee |
| KmdInterest.Interest | mm2src/coins/utxo.rs:1762-1829 | no 64-bit step over- or underflows and the outcome is the specified one |
| KmdInterest.ReasonsInNumbers | mm2src/coins/utxo.rs:1769-1810 | each reason is given exactly under its condition, in numbers |
| KmdInterest.RewardInNumbers | mm2src/coins/utxo.rs:1802-1829 | the reward in numbers: units per minute from the sixtieth on, the two caps, a five-hundredth from block 3,484,958 |
| KmdInterest.KnownRewards | mm2src/coins/utxo/utxo_tests.rs:825-880 | the rewards that the program's tests name |
| KmdInterest.InterestFits | mm2src/coins/utxo.rs:1817-1826 | the reward is at most a twentieth of the value |
| KmdInterest.AccruesFromStart | mm2src/coins/utxo.rs:1843-1846 | an eligible output accrues exactly from the reported start on, if and only if the addition does not wrap |
| KmdInterest.StartCanBeTooEarly | mm2src/coins/utxo.rs:1843-1846 | a lock time whose reported start lies before it |
| KmdInterest.ConstantFromStop | mm2src/coins/utxo.rs:1831-1841 | the reward is constant from the reported stop on, unless only the stop wraps |
| KmdInterest.ReportedTimesAreRight | mm2src/coins/utxo.rs:1831-1846 | for every 32-bit lock time both reported times are right, an hour and a year or 31 days after it |
| KmdInterest.MonotoneInTime | mm2src/coins/utxo.rs:1802-1829 | waiting never lowers the reward |
| KmdInterest.MonotoneInHeight | mm2src/coins/utxo.rs:1809-1826 | a later block never earns more, across every threshold |
| TxFee.IncreaseCompletesFee | mm2src/coins/utxo.rs:337-342 | the fee and the increase of a change output make up the fee with the change output, saturation included |
| TxFee.FeeMonotone | mm2src/coins/utxo.rs:322-335 | a larger size or rate never costs less |
| TxFee.StartedKilobytesWithinOneRate | mm2src/coins/utxo.rs:324-326 | whole kilobytes cost between the proportional fee and one rate more |
| TxFee.ProportionalFeeInNumbers | mm2src/coins/utxo.rs:329-332 | a thousandth of rate times size, rounded down, up to the largest 64-bit number |
| TxFee.StartedFeeInNumbers | mm2src/coins/utxo.rs:333 | the rate for each started thousand bytes, up to the largest 64-bit number |
| TxFee.ChangeOutputInNumbers | mm2src/coins/utxo.rs:339-342 | a change output costs the difference of 34 more bytes |

## Left out

- RPC clients, signing, hardware wallets and broadcasting: only the moment a spend is recorded matters here.
- Ordering and deduplication of the result of the substitution by its callers.
- The pending sequence number is unbounded; the program's counter has 64 bits.
- Block heights of inputs: the record drops them, and replacements are returned without one, as modelled.
- The word of more than 2^32 - 1 keys or of a key that long: the header is clamped as in the program, and the
  reading statements ask for the limits that the layout can represent.
- Fairness and wake-up order of the asynchronous mutexes, wakers and thread-local mechanics: steps are atomic.
- A task that asks for a second guard while it holds one is not modelled.
- JSON parsing beyond the values that decide lifetimes, and rounding of blocktimes: they are reals here.
- History paging, storage back ends, node URLs, decline logging and endpoint suspension: mostly input and output
  around the parts modelled here, and not modelled.
