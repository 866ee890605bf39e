# Verified model of the oracle node

This project models, in Dafny 4.11, the decision logic of a decentralised price oracle node and proves what that logic
guarantees. A set of oracle nodes takes turns publishing a price on chain. Every node derives the same publication
order from the hash of the last publication, opens widening windows for fallback publishers, co-signs another node's
publication when it agrees, and publishes once a majority has signed. Around that sit the price aggregation, the
need/unneed signal, the batching of contract calls, the message format, and the handling of nonces and gas prices.

Run `dafny verify dfyconfig.toml` in this directory to check everything.

## How the model is laid out

| file | models |
|---|---|
| `SelectNext.dfy` | the publication order: a shuffle by hash bytes, then a stake-weighted choice of the first publisher |
| `ConditionalPublish.dfy` | the need/unneed signal object: the multicall refresh and its readers |
| `SignalRefresh.dfy` | the same signal as single assignments of the refresh thread interleaved with readers |
| `OracleTurn.dfy` | the price-change latch, the fallback windows, and the two turn queries, as an object with fields |
| `TurnTheorems.dfy` | publisher and peer agreement, eligibility over a publication, mode changes |
| `Tasks.dfy` | task publication: the availability latch and the task turn |
| `RequestValidation.dfy` | what a node checks before it co-signs |
| `GatherSignatures.dfy`, `Quorum.dfy` | collecting signatures, the quorum, and what a quorum guarantees |
| `Protocol.dfy` | the whole attempt, from the exchanges' quotes and "my turn" to a publication that goes out |
| `WeightedMedian.dfy`, `PriceFeeder.dfy` | bounded queues, nearest-in-time lookup, weighted median, published price |
| `Encoding.dfy`, `Messages.dfy` | the signed text and its reading back |
| `Multicall.dfy`, `Executor.dfy` | ABI signature parsing, call batches, the batching executor |
| `NonceManager.dfy`, `GasCalculator.dfy` | one transaction at a time per account; gas price limits |
| `Helpers.dfy`, `Prelude.dfy` | price distance; options, results, permutations |

Objects whose methods update fields are classes; each method is proved equal to a step of a specification function, and
the theorems are about that function, over all inputs and all runs. Concurrency is modelled as state machines: a step
of an asyncio coroutine runs from one suspension to the next, and a body under a thread lock is one step. Lemmas that
Dafny would otherwise also try by automatic induction carry `{:induction false}`: their bodies are the proofs.

Prices and percentages are exact rationals (`real`), SHA-256 digests are arbitrary 32-byte strings, signatures are an
abstract verification relation, clocks and remote answers are parameters, and a Python exception is an `Err`, a `None`
or the class's own error result.

## Where the code and its documentation differ

The model follows the code.

- The header of `select_next.py` describes the draw as the hash modulo the total stake; the code scales the hash by
  total stake / (2^256 - 1) (servers/oracle/src/select_next.py:92-93).
- `get_weighted_from` has a branch for "no prices", but unpacking an empty zip raises before it
  (servers/oracle/src/price_feeder/moc_price_engines.py:521-526); its caller filters such input out.
- A multicall `Call` keeps its signature without spaces but parses the one it was given, spaces included
  (servers/w3multicall/multicall.py:122-128).
- A comment calls `NonceManager.release` safe to call unconditionally (servers/common/services/blockchain.py:406); it
  is, except when a queued task is cancelled while another task holds the lock (`NonceManager.RunIsExclusiveIff`).

## What turned out false, and exactly when it holds

- *Every position eventually becomes eligible*: every one but the last, and the last one too unless the last configured
  amount plus one (or 1 with no amounts) equals n - 1; then no query ever says yes to it
  (`TurnTheorems.FullyOpenQueryIff`, `TurnTheorems.LeftOutNeverEligible`, `TurnTheorems.ThirdOracleRefused`).
- *A peer agrees with a publisher's turn*: exactly when the oracle is the chosen one, or the peer has a price it can
  compare and one of its own windows has been open long enough (`TurnTheorems.PeerAgreesIff`); a peer that latched the
  price change later can disagree (`TurnTheorems.LaterLatchDisagrees`).
- *Being online means the last recorded transition was to online*: exactly unless the latest switch to online was first
  seen by a reading that met an outage, with the switch to offline before it recorded at a newer block than any switch
  to online (`SignalRefresh.OnlineMeansOnlineRecordedLastIff`, `SignalRefresh.OutageHidesOnlineSwitch`).
- *The latch remembers the first price change of a publication*: exactly when no other publication's price moved after
  it, or by the coincidence that the price was first seen to move again at the very block of the first move
  (`OracleTurn.LatchRefinesUnlessOvertaken`, `OracleTurn.LatchRefinesHistoryIff`); a publication that comes back is
  treated as new (`OracleTurn.ReturningPublicationForgets`), and what the latch holds then is known on every history
  (`OracleTurn.LatchIsFirstSinceOvertaken`).
- *Gathering keeps only signatures*: a peer that serves neither signing endpoint leaves a marker among them, and the
  sort then raises (`Quorum.UnsupportedPeerBreaksGathering`; exactly when, `Quorum.GatherRaisesIff`).
- *n/2 peers in agreement are enough to publish*: exactly unless a peer that serves neither endpoint completes while
  fewer than n/2 others have brought anything; then the attempt raises, however many peers signed
  (`Quorum.EnoughAnswersSendIff`, `Protocol.AgreeingMajorityPublishesIff`, `Protocol.OnePeerSpoilsRound`).
- *A waiting future's batch is pending or queued*: exactly when no pool thread took a task while the pool of Web3
  instances was empty; such a task is gone, and its futures wait forever (`Executor.WaitingAreOpenIff`,
  `Executor.EmptyPoolLosesFuture`, `Executor.LostWaitsForever`).
- *One holder of the nonce lock, own releases only*: exactly when no task was ever cancelled while queued behind a held
  lock (`NonceManager.RunIsExclusiveIff`, `NonceManager.CancelledInQueueFreesAnothersLock`).
- *A task's nonce exceeds the last one taken*: is sure exactly when the pending count had passed that nonce as the task
  took the lock (`NonceManager.NextNonceExceedsIff`). So it does after a predecessor that saw the count advance
  (`NonceManager.NoncesNeverGoBack`); after one that gave up the same nonce can be taken again, but never a smaller one
  (`NonceManager.GivingUpCanRepeatNonce`).
- *Gas prices respect the hard minimum*: exactly when the two hard limits are consistent
  (`GasCalculator.NeverBelowHardMinIff`).
- *Parsing undoes printing of type lists*: for every list except the one holding a single empty type
  (`Multicall.PrintedTypesParseBackIff`).

## Model

| member | source | states |
|---|---|---|
| SelectNext.ShufflePermutes | servers/oracle/src/select_next.py:76-83 | the shuffled list holds exactly the oracles of the input |
| SelectNext.EachPickByItsByte | servers/oracle/src/select_next.py:76-83 | the i-th oracle picked is the one at position hb[i] mod (n - i) among those not yet picked, in their order |
| SelectNext.ResiduesAreModuli | servers/oracle/src/select_next.py:77 | the residues the shuffle reads are the bytes modulo the number of oracles left |
| SelectNext.ShuffleOfLehmerCode | servers/oracle/src/select_next.py:76-83 | the residues computed from any arrangement of distinct oracles drive the shuffle to that arrangement |
| SelectNext.LehmerCodeOfShuffle | servers/oracle/src/select_next.py:76-83 | from the arrangement, the residues hb[i] mod (n - i) that produced it can be computed back |
| SelectNext.ShuffleReadsOnlyResidues | servers/oracle/src/select_next.py:76-83 | hashes with equal residues shuffle alike, so no byte past the list length matters |
| SelectNext.ResiduesOfLehmerCode | servers/oracle/src/select_next.py:77 | a code is its own residue sequence, whatever bytes follow it |
| SelectNext.ShuffleOneToOne | servers/oracle/src/select_next.py:76-83 | two hashes give the same arrangement of distinct oracles exactly when their residues agree |
| SelectNext.EveryOrderIsReached | servers/oracle/src/select_next.py:57-83 | for at most 32 distinct oracles every arrangement is produced by some 32-byte digest |
| SelectNext.SearchStops | servers/oracle/src/select_next.py:95-97 | the bucket search stops inside the list, at the first bucket not below the scaled draw |
| SelectNext.WinnerIsTheBucket | servers/oracle/src/select_next.py:92-97 | position j wins exactly when the scaled draw lies in bucket j |
| SelectNext.WonByInterval | servers/oracle/src/select_next.py:92-97 | the draws that position j wins are one interval of hash values, ending at floor(B_j * M / T) |
| SelectNext.DrawCount | servers/oracle/src/select_next.py:92-97 | exactly how many of the 2^256 draws choose position j |
| SelectNext.StakeProportional | servers/oracle/src/select_next.py:85-98 | the number of draws won is within one of stake * M / total stake |
| SelectNext.NoStakeChoosesFirst | servers/oracle/src/select_next.py:93-97 | with no stake at all the first shuffled oracle is chosen |
| SelectNext.MaxIntIsLargestHash | servers/oracle/src/select_next.py:92 | the constant is 256^32 - 1, the largest value of a 32-byte hash |
| SelectNext.DrawInRange | servers/oracle/src/select_next.py:93 | a digest read as a number never exceeds that constant |
| SelectNext.OrderIsRotationFromWinner | servers/oracle/src/select_next.py:92-98 | the returned order is the shuffled list rotated to start at the bucket of the draw, the number whose hexadecimal text is the digest's |
| SelectNext.DrawIsHexText | servers/oracle/src/select_next.py:93 | the draw is the number that the hexadecimal text of the digest says |
| SelectNext.FirstByteWeighsMost | servers/oracle/src/select_next.py:93 | the first byte of the digest is the most significant one of the draw |
| SelectNext.FirstByteDecides | servers/oracle/src/select_next.py:92-98 | a concrete digest whose first byte makes the second of two oracles the winner |
| SelectNext.Order | servers/oracle/src/select_next.py:57-98 | a rearrangement of the input, or an error exactly for more than 32 oracles |
| SelectNext.ShuffleIntoBuckets | servers/oracle/src/select_next.py:66-83 | the first loop computes the shuffle, its total stake, and each bucket as the stake up to that position |
| SelectNext.SearchBucket | servers/oracle/src/select_next.py:92-97 | the second loop finds an index in range whose bucket holds the draw |
| SelectNext.SelectNext | servers/oracle/src/select_next.py:57-98 | the imperative algorithm computes the specified order, errors included |
| SelectNext.PermutationKeepsAddresses | servers/oracle/src/select_next.py:101-103 | the addresses of any order are those of the round, and distinct when those are |
| ConditionalPublish.GetConditionActive | servers/common/services/conditional_publish.py:643-684 | the loops compute the specified verdict or error, for every mix of decoded and undecodable answers |
| ConditionalPublish.ConditionActiveIsRight | servers/common/services/conditional_publish.py:643-684 | every verdict given is right: active exactly when a queue is not empty, an EMA is due or a time has passed; and exactly when none is given, because an undecodable time is compared or asking for the timestamp raises |
| ConditionalPublish.NeededMeans | servers/common/services/conditional_publish.py:648-684 | which answers make a publication needed, in terms of the answers to each list of conditions |
| ConditionalPublish.AsksMeans | servers/common/services/conditional_publish.py:648-676 | exactly when the block's timestamp is asked for, in terms of the answers |
| ConditionalPublish.RaisesMeans | servers/common/services/conditional_publish.py:667-684 | a list of times raises exactly at an undecodable one with no passed one ahead of it |
| ConditionalPublish.ScanSays | servers/common/services/conditional_publish.py:667-684 | a scan of times finds a passed one, unless an undecodable one comes first |
| ConditionalPublish.EachConditionItsOwnAnswers | servers/common/services/conditional_publish.py:593-611 | flattening the call lists and popping the answers gives call j of list i the answer to that very call |
| ConditionalPublish.SlicesNeedAllAnswers | servers/common/services/conditional_publish.py:604-611 | the pops fail exactly when fewer answers than calls came back |
| ConditionalPublish.FlattenCalls | servers/common/services/conditional_publish.py:593-596 | the nested append loop is the concatenation of the lists |
| ConditionalPublish.PopResults | servers/common/services/conditional_publish.py:604-611 | the pop loop cuts the answers into runs as long as the call lists, or fails for want of answers |
| ConditionalPublish.SignalService.SyncFetch | servers/common/services/conditional_publish.py:583-621 | the whole new state of a refresh, for a failed multicall, missing answers, a failed timestamp and success |
| ConditionalPublish.FetchRaisesIff | servers/common/services/conditional_publish.py:597-621 | what a refresh raises: nothing when the multicall fails, an error for too few answers, otherwise what the conditions raise |
| ConditionalPublish.FetchLeaves | servers/common/services/conditional_publish.py:583-621 | what a refresh leaves in each of its outcomes: the block, the answers, the verdict and whether publication is forced |
| ConditionalPublish.SignalService.OfflineCfg | servers/common/services/conditional_publish.py:697-714 | the mode read and the transition recorded; nothing happens in the disabled service |
| ConditionalPublish.SignalService.GetPriceDelta | servers/common/services/conditional_publish.py:473-477 | the threshold for the current mode, or the default for the sentinel |
| ConditionalPublish.SignalService.GetValidPricePeriod | servers/common/services/conditional_publish.py:479-484 | the period for the current mode, or the default for the sentinel |
| ConditionalPublish.ValuesByMode | servers/common/services/conditional_publish.py:473-484 | the unneed values hold exactly while offline (running, no condition active, none forced), the need values otherwise, the general ones for -2 or without a service |
| ConditionalPublish.LookTwice | servers/common/services/conditional_publish.py:697-714 | reading twice with no refresh between agrees, and the second reading changes nothing |
| SignalRefresh.EveryReadingIsOneFetch | servers/common/services/conditional_publish.py:583-621 | in every interleaving, each reading is the verdict of one completed fetch or the initial pair |
| SignalRefresh.ReadingSays | servers/common/services/conditional_publish.py:612-621 | a reading while running says offline exactly when the last completed fetch found no condition active and the endpoint did not force publication |
| SignalRefresh.RecordsAreLastSwitches | servers/common/services/conditional_publish.py:697-720 | over whole runs the service runs exactly while the latest multicall was answered, and the two recorded blocks are those of the latest switches that readings saw |
| SignalRefresh.ForceImpliesNotBase | servers/common/services/conditional_publish.py:612-621 | in every reachable state a forced publication means no condition is active |
| SignalRefresh.RepeatedReadsAgree | servers/common/services/conditional_publish.py:697-714 | in every run, two readings with no refresh step between them agree and leave one state |
| SignalRefresh.OfflineMeansOfflineRecordedLast | servers/common/services/conditional_publish.py:693-720 | over non-decreasing blocks, being offline means the last recorded transition was to offline |
| SignalRefresh.OnlineMeansOnlineRecordedLastIff | servers/common/services/conditional_publish.py:693-720 | over whole runs, being online means the last recorded transition was to online, exactly unless the latest switch to online was hidden by an outage |
| SignalRefresh.OnlineRecordSurvivesReadingIff | servers/common/services/conditional_publish.py:697-714 | the step behind it: one reading breaks that claim exactly when it meets an outage while offline, the switch to offline being the newest record |
| SignalRefresh.OutageHidesOnlineSwitch | servers/common/services/conditional_publish.py:597-603 | a concrete run in which an outage hides the switch back to online |
| SignalRefresh.UninterruptedFetch | servers/common/services/conditional_publish.py:583-621 | the refresh thread's single steps, run without interruption, add up to one whole refresh |
| OracleTurn.LatchIsFirstSinceOvertaken | servers/oracle/src/oracle_turn.py:158-208 | on every history: the latch is set for a publication exactly when its price moved since another publication last overtook it, and then at the first such call |
| OracleTurn.LatchAnswers | servers/oracle/src/oracle_turn.py:158-208 | on every history: each answer is the age of that first call, or none |
| OracleTurn.LatchRefinesUnlessOvertaken | servers/oracle/src/oracle_turn.py:158-208 | on every history in which no other publication has overtaken it, the answer is the age of the first move the publication ever saw |
| OracleTurn.LatchRefinesHistoryIff | servers/oracle/src/oracle_turn.py:158-208 | and on no other history, save when the price was first seen to move again at the very block of the first move |
| OracleTurn.LatchIsFirstReached | servers/oracle/src/oracle_turn.py:158-208 | over non-decreasing publications the newest one's latch is the first call whose price had moved far enough |
| OracleTurn.LatchRefinesHistory | servers/oracle/src/oracle_turn.py:158-208 | in particular over non-decreasing publications, repeated blocks included, whatever the price does later |
| OracleTurn.ReturningPublicationForgets | servers/oracle/src/oracle_turn.py:170-206 | a concrete history in which a publication block that comes back is treated as new |
| OracleTurn.ExpiryStartAfterLook | servers/oracle/src/oracle_turn.py:259-286 | readings taken within one query do not move the window before expiry |
| OracleTurn.PriceOracleTurn.PriceChangedBlocks | servers/oracle/src/oracle_turn.py:158-208 | the answer, the new latch and the signal state; errors change nothing; every other call joins the history that the latch refines |
| OracleTurn.PriceOracleTurn.ExpiryWindowStart | servers/oracle/src/oracle_turn.py:259-286 | the start of the window before expiry, moved up to the latest recorded mode change |
| OracleTurn.PriceOracleTurn.TryWindows | servers/oracle/src/oracle_turn.py:288-331 | the window before expiry first, then the window after the price change |
| OracleTurn.PriceOracleTurn.IsOracleTurnWithMsg | servers/oracle/src/oracle_turn.py:211-331 | the method computes the specified query: answer, error and new state |
| OracleTurn.PriceOracleTurn.Validate | servers/oracle/src/oracle_turn.py:25-31 | the peer's query: the chosen oracle at once, otherwise the windows with fallbacks allowed |
| OracleTurn.PriceOracleTurn.Query | servers/oracle/src/oracle_turn.py:34-49 | the publisher's query, and the order it used |
| TurnTheorems.CanPublishByRank | servers/oracle/src/oracle_turn.py:82-133 | an oracle may publish exactly when its position is below the window's width at that age |
| TurnTheorems.SequenceShape | servers/oracle/src/oracle_turn.py:68-80 | for non-decreasing amounts the window widths start at one and never shrink |
| TurnTheorems.WidthMonotone | servers/oracle/src/oracle_turn.py:99-110 | a window never narrows with age, also past the end of the list |
| TurnTheorems.WidthInAmounts | servers/oracle/src/oracle_turn.py:68-110 | the width of a window at each age is the configured amount of that age plus one; past the amounts it is n or the last of them |
| TurnTheorems.AdmitsInAmounts | servers/oracle/src/oracle_turn.py:68-133 | which position a window admits at which age, in terms of the configured amounts |
| TurnTheorems.OpeningAgeIff | servers/oracle/src/oracle_turn.py:99-110 | a position is admitted exactly from its opening age on |
| TurnTheorems.FullWindowAdmits | servers/oracle/src/oracle_turn.py:68-80 | the fully opened window admits every position but the last one, and that one unless the last entry equals n - 1 |
| TurnTheorems.QueryYesIff | servers/oracle/src/oracle_turn.py:211-331 | a query says yes exactly when the gates pass, nothing raises, and one of the two windows admits the oracle's position |
| TurnTheorems.FallbackYesIff | servers/oracle/src/oracle_turn.py:211-331 | the same for fallbacks, in terms of the latch and signal before the query: a latch set by the query itself admits no fallback |
| TurnTheorems.FallbackYesInAmountsIff | servers/oracle/src/oracle_turn.py:211-331 | exactly when a fallback gets a yes, in terms of the configured amounts, the listed oracles and the block numbers |
| TurnTheorems.ChosenYesIff | servers/oracle/src/oracle_turn.py:211-331 | exactly when the chosen oracle gets a yes; a price change latched by the query itself counts |
| TurnTheorems.LatchSetIff | servers/oracle/src/oracle_turn.py:158-208 | a query latches the price change exactly when the prices are at least the threshold of the current mode apart, in percent of the smaller |
| TurnTheorems.ExpiryStartIs | servers/oracle/src/oracle_turn.py:259-279 | the window before expiry starts at the latest of the computed block and the two recorded switches |
| TurnTheorems.OwnTurnIs | servers/oracle/src/oracle_turn.py:34-49 | what a node asks about its own turn: the query in the publication order; with fallbacks disabled only the chosen oracle gets a yes |
| TurnTheorems.FullyOpenQueryIff | servers/oracle/src/oracle_turn.py:211-331 | once either window is fully open, a query that passes the gates and does not raise says yes to every position except the one left out |
| TurnTheorems.LeftOutNeverEligible | servers/oracle/src/oracle_turn.py:68-80 | the position left out gets no yes at any block, price, latch or signal |
| TurnTheorems.ThirdOracleRefused | servers/oracle/src/oracle_turn.py:68-133 | concretely, the third of three oracles, refused hundreds of blocks after both windows opened |
| TurnTheorems.QueryRaisesIff | servers/oracle/src/oracle_turn.py:158-257 | exactly when a query raises, which error, and that it then changes nothing |
| TurnTheorems.ValidateRaisesIff | servers/oracle/src/oracle_turn.py:25-31 | exactly when a peer's query raises: no oracles, more than 32, or the query proper; about the chosen oracle it says yes at once and changes nothing |
| TurnTheorems.PublisherPeerAgreement | servers/oracle/src/oracle_turn.py:25-49 | a publisher's yes, fallbacks enabled or not, is the yes of every peer that reads the same signal, can answer, and had latched no later before it was asked |
| TurnTheorems.PeerAgreesIff | servers/oracle/src/oracle_turn.py:25-31 | exactly when a peer agrees with a publisher's yes, in terms of its exchange price, latch and signal before it is asked |
| TurnTheorems.LaterLatchDisagrees | servers/oracle/src/oracle_turn.py:158-208 | two concrete nodes, one that latched early and publishes, one that latched late and refuses |
| TurnTheorems.EligibilityPersists | servers/oracle/src/oracle_turn.py:98-133 | over any run of queries in one publication, an oracle eligible at one block is eligible at every later block |
| TurnTheorems.StateKept | servers/oracle/src/oracle_turn.py:169-208 | during a publication the window before expiry stays put and a latch once set stays set |
| TurnTheorems.ModeChangeRestartsExpiryWindow | servers/oracle/src/oracle_turn.py:265-300 | no fallback passes the window before expiry at or before the latest recorded transition, one just noticed included |
| TurnTheorems.ExpiryStartAmidRefresh | servers/oracle/src/oracle_turn.py:259-279 | whatever the refresh thread does, statement by statement, after the period is read, the window is the one of the moment of that reading |
| TurnTheorems.AtModeChangeOnlyPriceChangeAdmitsFallbacks | servers/oracle/src/oracle_turn.py:259-331 | at such a block a fallback's yes can only come from a latched price change |
| Tasks.HoldsBackIff | servers/oracle/src/tasks_runner.py:81-97 | a node holds back exactly when the contract names a task and every task it names is ignored; then it sees no flags, otherwise the contract's |
| Tasks.LowerExample | servers/oracle/src/tasks_runner.py:90-91 | addresses are compared in lower case |
| Tasks.LatchIsStreakStart | servers/oracle/src/tasks_runner.py:38-44 | the latched block is that of the first poll of the current run of available polls, skipping block 0 |
| Tasks.NoLatchIff | servers/oracle/src/tasks_runner.py:38-44 | there is no latched block exactly after a poll that found no tasks |
| Tasks.TaskYesIff | servers/oracle/src/oracle_turn.py:338-392 | tasks available, oracle in the round, and its position admitted by the window opened at the latched block |
| Tasks.TaskYesInAmountsIff | servers/oracle/src/oracle_turn.py:338-392 | the same in terms of the configured amounts and the block numbers, and exactly when the query raises |
| Tasks.TaskTurnsAre | servers/oracle/src/oracle_turn.py:338-392 | what a node asks about its own tasks and what a validator asks about another's |
| Tasks.TaskPeerAgreesIff | servers/oracle/src/oracle_turn.py:338-392 | exactly when a peer, with or without a latched block, agrees that a node may run the tasks; always when the peer's block is no later |
| Tasks.TaskTurnPersists | servers/oracle/src/tasks_runner.py:38-55 | while every poll finds tasks, an oracle once entitled to run them stays entitled |
| Tasks.TasksRunner.IsOracleTurn | servers/oracle/src/tasks_runner.py:38-55 | each poll joins the history that the latch refines, and the turn is decided with that latch |
| Tasks.TasksRunner.CreateValidator | servers/oracle/src/tasks_runner.py:69-79 | a validator sees the tasks afresh but the block latched by this node's own polls |
| RequestValidation.PriceParamsPassIff | servers/oracle/src/request_validation.py:74-149 | for positive prices, exactly when the parameters of a request pass |
| RequestValidation.PriceFailureIs | servers/oracle/src/request_validation.py:74-150 | which failure is reported: the first check that the request does not meet |
| RequestValidation.PriceAnswerIff | servers/oracle/src/request_validation.py:64-72 | exactly when a request is answered, with what, and what it does to the turn state |
| RequestValidation.PreparedMessageSays | servers/oracle/src/coin_pair_runner.py:62-73 | what the publisher asks to be signed reads back as its coin pair, price, address, last publication and expiration, in version 4 |
| RequestValidation.SignsOnlyWhatItChecked | servers/oracle/src/request_validation.py:64-72 | a node signs only the text of the request it validated, for a requester that signed that text and whose turn it is |
| RequestValidation.PeerSignsIff | servers/oracle/src/request_validation.py:64-162 | a peer signs a publisher's request exactly when it agrees on the turn, its clock fits the expiration and the prices are close |
| RequestValidation.AcceptedPricesAreClose | servers/oracle/src/request_validation.py:134-149 | two prices one node accepted against one exchange price differ at most by the factor (1 + D/100)^2 |
| RequestValidation.TaskAnswerIff | servers/oracle/src/request_validation.py:206-267 | exactly when a task request is answered, the requester's signature included, and with what |
| RequestValidation.TaskFailureIs | servers/oracle/src/request_validation.py:206-267 | which failure of a task request is reported: the first that holds |
| RequestValidation.TaskPeerSignsIff | servers/oracle/src/request_validation.py:206-267 | a peer signs a task exactly when it sees the same available tasks and agrees on the turn, whatever it has latched, if anything; a block no later is enough for the latter |
| GatherSignatures.GetSignatureIff | servers/oracle/src/oracle_coin_pair_loop.py:233-355 | a peer's signature is taken exactly when the current endpoint gave it and it verifies on the message, or, where that is not served, the legacy one gave it and it verifies on the legacy message |
| GatherSignatures.CollectKeepsFirstNeeded | servers/oracle/src/oracle_coin_pair_loop.py:218-225 | the loop keeps exactly the first n/2 answers, and raises when the time is up before that many |
| GatherSignatures.SortIsSorted | servers/oracle/src/oracle_coin_pair_loop.py:228-230 | the signatures end up in ascending order of address, none lost or added |
| GatherSignatures.GatherSignatures | servers/oracle/src/oracle_coin_pair_loop.py:200-230 | the loop with its break, our own signature and the sort compute the specified list |
| Quorum.PeersAreOthers | servers/oracle/src/oracle_coin_pair_loop.py:204-215 | exactly the other oracles of the round are asked, each once |
| Quorum.AnswerIsGenuine | servers/oracle/src/oracle_coin_pair_loop.py:233-255 | a signature is kept only if it verifies for that peer, on the message or on its legacy form |
| Quorum.GatheredAreGenuine | servers/oracle/src/oracle_coin_pair_loop.py:200-230 | a gathered set holds our signature and verified signatures of different other oracles, in ascending order |
| Quorum.GatheredAscend | servers/oracle/src/oracle_coin_pair_loop.py:221-226 | the ascending order is that of the addresses read as hexadecimal numbers |
| Quorum.SendsIff | servers/oracle/src/oracle_coin_pair_loop.py:144-161 | for rounds of any size, exactly when a publication goes out, and how many signatures it can carry |
| Quorum.LoneOracleSends | servers/oracle/src/oracle_coin_pair_loop.py:144-161 | an oracle alone in its round publishes with its own signature |
| Quorum.GatherRaisesIff | servers/oracle/src/oracle_coin_pair_loop.py:218-229 | exactly when sorting the gathered answers raises |
| Quorum.EnoughAnswersSendIff | servers/oracle/src/oracle_coin_pair_loop.py:128-226 | when n/2 peers bring something in time, a full set is sent exactly unless a peer serving neither endpoint completes while fewer than n/2 have brought anything, and then sorting raises |
| Quorum.UnsupportedPeerBreaksGathering | servers/oracle/src/oracle_coin_pair_loop.py:239-255 | concretely, a peer serving neither endpoint makes gathering raise |
| Quorum.QuorumsIntersect | servers/oracle/src/oracle_coin_pair_loop.py:149 | two quorums over one round share a signer |
| Quorum.PublishedPricesAreClose | servers/oracle/src/oracle_coin_pair_loop.py:144-154 | two publications of one round, each signed by a quorum standing for its price, differ at most by the factor (1 + D/100)^2 |
| Protocol.AgreeingPeerSigns | servers/oracle/src/request_validation.py:64-72 | a peer in agreement answers a publisher's request with its signature of the very message |
| Protocol.AgreeingPeerSignsLegacy | servers/oracle/src/request_validation.py:64-72 | a peer in agreement signs the legacy form too, whatever its clock |
| Protocol.AgreeingMajorityPublishesIff | servers/oracle/src/oracle_coin_pair_loop.py:108-260 | for a node whose turn it is, when n/2 peers in agreement answer in time, on the current or only on the legacy endpoint, the publication goes out exactly unless a peer serving neither completes among the first, and gathering raises exactly then; nothing is assumed of the other replies |
| Protocol.AgreeingMajorityPublishes | servers/oracle/src/oracle_coin_pair_loop.py:108-260 | in particular it goes out when every peer serves one of the two endpoints, whatever the others answer there |
| Protocol.RobustPricesAreClose | servers/oracle/src/price_feeder/price_feeder.py:63-94 | two nodes, whatever they listen to: if most of what survives at each quotes in one narrow band, each price is close enough for the other to accept |
| Protocol.RobustPeerSignsIff | servers/oracle/src/coin_pair_runner.py:41-84 | with prices from such exchanges a peer signs exactly when it agrees on the turn and its clock fits the expiration |
| Protocol.RobustMajorityPublishesIff | servers/oracle/src/oracle_coin_pair_loop.py:108-260 | from the exchanges to the chain: with n/2 such peers that agree on the turn and answer in time, the node's price is inside the band and is published, exactly unless a peer serving neither endpoint completes among the first |
| Protocol.OnePeerSpoilsRound | servers/oracle/src/oracle_coin_pair_loop.py:189-255 | a concrete round of three in which the needed signature is given in time, yet the peer that completes first serves neither endpoint and gathering raises |
| Protocol.TwoNodesPublish | servers/oracle/src/oracle_coin_pair_loop.py:108-260 | a concrete round of two in which all premises hold and the fallback publishes with its peer's signature, also when the peer serves only the legacy endpoint |
| Protocol.TwoNodesPriced | servers/oracle/src/coin_pair_runner.py:41-84 | in that round both prices can come from one exchange's quote |
| WeightedMedian.WeightedMedianIdx | servers/oracle/src/price_feeder/moc_price_engines.py:35-59 | the loop returns the index the specification picks, or the error of an empty list or zero weight |
| WeightedMedian.PickedRow | servers/oracle/src/price_feeder/moc_price_engines.py:35-59 | the index is that of the first row, by value, then weight, then position, at which the running weight reaches one half |
| WeightedMedian.FallThroughUnreachable | servers/oracle/src/price_feeder/moc_price_engines.py:49-59 | for non-negative weights with positive sum some row reaches half, so the last return is never taken |
| WeightedMedian.MedianIsLeastHalfValue | servers/oracle/src/price_feeder/moc_price_engines.py:35-59 | the chosen value is the least listed value whose weight at or below reaches half of the total |
| WeightedMedian.MedianSplitsWeight | servers/oracle/src/price_feeder/moc_price_engines.py:49-58 | weight strictly below is under half, weight strictly above at most half |
| WeightedMedian.MedianUnique | servers/oracle/src/price_feeder/moc_price_engines.py:35-59 | that description fixes the value |
| WeightedMedian.MedianOfPermutation | servers/oracle/src/price_feeder/moc_price_engines.py:46-47 | the value does not depend on the order of the (value, weight) pairs |
| WeightedMedian.MedianOfScaled | servers/oracle/src/price_feeder/moc_price_engines.py:44-45 | scaling all weights by a positive factor does not change the value |
| WeightedMedian.MedianIsOptimal | servers/oracle/src/price_feeder/moc_price_engines.py:35-59 | no real number has a smaller weighted sum of absolute deviations |
| WeightedMedian.MajorityPinsMedian | servers/oracle/src/price_feeder/moc_price_engines.py:35-59 | values in an interval holding more than half of the weight pin the median to that interval |
| PriceFeeder.NearestIsRight | servers/oracle/src/price_feeder/price_feeder.py:19-39 | at minimal distance, latest timestamp at that distance, earliest inserted with that timestamp |
| PriceFeeder.NearestIsUnique | servers/oracle/src/price_feeder/price_feeder.py:19-39 | that description fixes the entry |
| PriceFeeder.TimeWithTimestampQueue.Append | servers/oracle/src/price_feeder/price_feeder.py:41-43 | the queue is always the last `maxlen` of everything appended |
| PriceFeeder.TimeWithTimestampQueue.GetNearestData | servers/oracle/src/price_feeder/price_feeder.py:19-33 | the lookup depends on those last elements only |
| PriceFeeder.FiniteIdx | servers/oracle/src/price_feeder/moc_price_engines.py:521-524 | the index list points at finite prices, and is everything when all are finite |
| PriceFeeder.FiniteIdxAre | servers/oracle/src/price_feeder/moc_price_engines.py:521-524 | it lists exactly the finite prices, each once, in order |
| PriceFeeder.GetWeightedFrom | servers/oracle/src/price_feeder/moc_price_engines.py:520-529 | the quote at the median, mapped back through the finite-only index list, or the error |
| PriceFeeder.Survivors | servers/oracle/src/price_feeder/price_feeder.py:64-73 | the nearest entry of each queue unless missing, not finite or stale |
| PriceFeeder.SurvivorsAre | servers/oracle/src/price_feeder/price_feeder.py:64-73 | every queue whose nearest entry is finite and fresh adds it, in the order of the queues, and no other queue adds anything |
| PriceFeeder.SentByIs | servers/oracle/src/price_feeder/price_feeder.py:99-105 | an exchange's items are what was received under its name, in the order received |
| PriceFeeder.PriceFeederLoop.Insert | servers/oracle/src/price_feeder/price_feeder.py:99-105 | one queue per exchange, made on first use, each holding what that exchange sent |
| PriceFeeder.PriceFeederLoop.Run | servers/oracle/src/price_feeder/price_feeder.py:96-112 | a round of fetched quotes is inserted in order, up to the first value that cannot be read |
| PriceFeeder.PriceFeederLoop.CollectPrices | servers/oracle/src/price_feeder/price_feeder.py:64-73 | the survivors, in the order the exchanges were first heard of |
| PriceFeeder.PriceFeederLoop.GetLastPrice | servers/oracle/src/price_feeder/price_feeder.py:63-94 | the price is a function of what was received, the target time and the purpose |
| PriceFeeder.ChosenQuote | servers/oracle/src/price_feeder/moc_price_engines.py:520-529 | the chosen quote is one of the survivors, finite, and holds their weighted median |
| PriceFeeder.PowersOfTen | servers/oracle/src/price_feeder/price_feeder.py:90 | the scale of a price is a power of ten, 10^18 for 18 digits |
| PriceFeeder.PriceInWei | servers/oracle/src/price_feeder/price_feeder.py:80-94 | at 18 digits the price given is the chosen quote's times 10^18, rounded down, with that quote's time |
| PriceFeeder.NoPriceIff | servers/oracle/src/price_feeder/price_feeder.py:74-79 | there is no price exactly when nothing survives, and which error otherwise |
| PriceFeeder.PriceIsFresh | servers/oracle/src/price_feeder/price_feeder.py:41-80 | the time of any price a feeder gives is within its limit of the time it was asked for, whatever the weights |
| PriceFeeder.RobustPrice | servers/oracle/src/price_feeder/price_feeder.py:63-94 | if exchanges with more than half of the surviving weight quote in [lo, hi], so is the published price, from a fresh, finite quote |
| Helpers.DeltaWithinIff | servers/common/helpers.py:104-105 | for positive prices the delta is within d percent exactly when each is at most (1 + d/100) times the other |
| Helpers.DeltaReachesIff | servers/common/helpers.py:104-105 | the delta reaches t percent exactly when a hundred times the distance is at least t times the smaller price |
| Helpers.DeltaUndefinedIff | servers/common/helpers.py:104-105 | there is no delta exactly when the smaller price is zero |
| Encoding.DigitsAre | servers/common/helpers.py:47-60 | the sixteen digits; capital ones are read too |
| Encoding.HexExample | servers/common/helpers.py:47-60 | the most significant digit comes first |
| Encoding.NegativePercentX | servers/common/helpers.py:47-48 | a negative number prints its sign within the width |
| Encoding.PercentXReadsBack | servers/common/helpers.py:47-60 | a printed number reads back, and fills exactly its width when it is in range |
| Encoding.AddressReadsBack | servers/common/helpers.py:63-69 | the printed form of an address parses to its number |
| Encoding.PrefixesAreRead | servers/common/helpers.py:63-69 | either prefix is skipped, and nothing after it is an error |
| Encoding.AddressesAreRead | servers/common/helpers.py:63-69 | an empty address is number 0, a prefix is skipped, everything else is read as it is |
| Encoding.BytesReadBack | servers/common/helpers.py:51-52 | the hexadecimal form of bytes reads back |
| Encoding.BytesHexAt | servers/common/helpers.py:51-52 | byte i takes digits 2i and 2i + 1, the higher one first |
| Encoding.StripUndoesPadding | servers/common/helpers.py:51-52 | stripping NULs undoes the padding to 32 bytes |
| Messages.ShorterIff | servers/common/services/oracle_dao.py:19-23 | the short name is the name without trailing NULs; the loop raises exactly for names of only NULs |
| Messages.Shorten | servers/common/services/oracle_dao.py:19-23 | the loop computes that short name |
| Messages.AsciiIff | servers/common/services/oracle_dao.py:16-17 | a name can be encoded exactly when it is ASCII |
| Messages.PairReadsBack | servers/common/services/oracle_dao.py:16-17 | the 32-byte form of a proper name gives the name back |
| Messages.EncodingReadsBack | servers/oracle/src/oracle_publish_message.py:47-72 | reading any list of fitting fields at the fixed widths undoes the joined encoders |
| Messages.Widths | servers/oracle/src/oracle_publish_message.py:55-64 | five fields take 296 digits, six take 360 |
| Messages.PriceMessageLayout | servers/oracle/src/oracle_publish_message.py:47-72 | the text of a price message, field after field at its width |
| Messages.TaskMessageLayout | servers/oracle/src/oracle_publish_message.py:130-150 | a task message is laid out like a price message without expiration, the flags in place of the price |
| Messages.PriceMessageFailsIff | servers/oracle/src/oracle_publish_message.py:47-54 | there is a text unless the name is not ASCII or the address is no number |
| Messages.PriceMessageReadsBack | servers/oracle/src/oracle_publish_message.py:47-72 | every field of an in-range price message can be read back; the length tells V3 from V4 |
| Messages.TaskMessageReadsBack | servers/oracle/src/oracle_publish_message.py:130-151 | every field of an in-range task message can be read back |
| Messages.PriceMessagesInjective | servers/oracle/src/oracle_publish_message.py:47-72 | two price messages are equal exactly when all their fields are |
| Messages.LegacySaysTheSame | servers/oracle/src/oracle_publish_message.py:99-106 | the legacy message says the same apart from version and expiration, in a different text when there is an expiration |
| Messages.TaskAndPriceMessagesAgreeIff | servers/oracle/src/oracle_publish_message.py:130-151 | exactly when a task message and a price message are the same text |
| Multicall.ParseTypeString | servers/w3multicall/multicall.py:39-56 | the loop splits at exactly the commas outside any tuple |
| Multicall.ParseSignature | servers/w3multicall/multicall.py:15-36 | the loop computes the specified parts, and raises exactly when the specification does |
| Multicall.ParsedTypesJoinBack | servers/w3multicall/multicall.py:39-56 | joining the parsed types with commas gives back everything between the outer characters |
| Multicall.SplitJoin | servers/w3multicall/multicall.py:42-56 | splitting a joined list of closed types gives the list back |
| Multicall.PrintedTypesParseBackIff | servers/w3multicall/multicall.py:39-56 | exactly which printed lists parse back |
| Multicall.SignatureParses | servers/w3multicall/multicall.py:15-36 | a name and two groups parse to the name with the first group and both type lists |
| Multicall.OutputTypesAreRequired | servers/w3multicall/multicall.py:33-35 | a signature without its group of output types raises |
| Multicall.ScanRaisesIff | servers/w3multicall/multicall.py:15-37 | the scan raises exactly at a parenthesis that closes what was never opened |
| Multicall.PrintIsClosed | servers/w3multicall/multicall.py:45-54 | no comma of a printed type is at top level, however deep its tuples go |
| Multicall.PrintedSignatureParses | servers/w3multicall/multicall.py:15-56 | any function printed with arbitrarily nested types parses back to its types |
| Multicall.SignatureExample | servers/w3multicall/multicall.py:15-56 | a concrete signature with a nested input type, parsed |
| Multicall.W3Multicall.CallAll | servers/w3multicall/multicall.py:146-160 | the outputs pair calls and answers in order, each decoded with its call's own types or None; a failed or undecodable response, or a call without output types, raises |
| Executor.W3MulticallExecutor.CheckPendingTask | servers/w3multicall/threading/w3multicall_executor.py:77-84 | a due or full pending task moves to the pool's queue, once |
| Executor.W3MulticallExecutor.SubmitCall | servers/w3multicall/threading/w3multicall_executor.py:109-122 | the call joins the pending task, or a new one, under the key its future holds |
| Executor.W3MulticallExecutor.ExecuteQueued | servers/w3multicall/threading/w3multicall_executor.py:86-107 | a queued task leaves the queue and gets its outcome, or none at all when the pool has no Web3 instance |
| Executor.RunBatch | servers/w3multicall/threading/w3multicall_executor.py:89-103 | the batch's outcome: the outputs of all calls, or an exception when any is missing |
| Executor.OutcomeIff | servers/w3multicall/threading/w3multicall_executor.py:94-101 | a batch has results exactly when every pair was answered and every call has output types: each call's own result |
| Executor.StepKeepsSound | servers/w3multicall/threading/w3multicall_executor.py:77-122 | what every submission, tick, execution and added instance keeps |
| Executor.EachFutureReadsItsOwnCall | servers/w3multicall/threading/w3multicall_executor.py:28-44 | in every run a future yields the result of the call it was returned for; one still waiting is pending, queued or lost |
| Executor.ExecutedFuturesYieldIff | servers/w3multicall/threading/w3multicall_executor.py:28-44 | in every run, once a queued task was executed with an instance at hand, each of its futures yields its own call's result from then on exactly when the batch was answered completely, and otherwise raises from then on |
| Executor.DueTickQueues | servers/w3multicall/threading/w3multicall_executor.py:72-84 | a tick that is due hands every waiting future that is not lost to the pool; one that is not due changes nothing |
| Executor.WaitingAreOpenIff | servers/w3multicall/threading/w3multicall_executor.py:86-107 | in every run each waiting future is pending or queued exactly when no pool thread ever took a task while the pool was empty |
| Executor.StockedPoolLosesNothing | servers/w3multicall/w3/w3.py:72-100 | a pool that starts with a Web3 instance never loses a future |
| Executor.LostWaitsForever | servers/w3multicall/threading/w3multicall_executor.py:28-36 | a lost future waits forever, whatever happens next |
| Executor.EmptyPoolLosesFuture | servers/w3multicall/threading/w3multicall_executor.py:86-91 | the concrete run that loses a future |
| Executor.BatchesAreBounded | servers/w3multicall/threading/w3multicall_executor.py:77-84 | no batch exceeds max(1, batch_max_size), and no two futures share a result |
| NonceManager.SecondReleaseIsIdle | servers/common/services/blockchain.py:390-393 | the release in `finally` right after the one that ends the polling does nothing |
| NonceManager.StepKeepsExclusive | servers/common/services/blockchain.py:369-393 | what every step keeps: one holder, a queue that matches, the right waiter awake, own releases only |
| NonceManager.EveryRunIsExclusive | servers/common/services/blockchain.py:369-437 | in every run without a cancellation behind a held lock that invariant holds |
| NonceManager.RunIsExclusiveIff | servers/common/services/blockchain.py:369-437 | over whole runs the invariant holds exactly when no task was ever cancelled while queued behind a held lock |
| NonceManager.AtMostOneHolder | servers/common/services/blockchain.py:417-437 | at most one task per address is between acquire and release, and nobody frees another task's lock |
| NonceManager.CancelledInQueueKeepsExclusiveIff | servers/common/services/blockchain.py:392-393 | the step behind it: cancelling a queued task is harmless exactly when nobody holds the lock |
| NonceManager.CancelledInQueueFreesAnothersLock | servers/common/services/blockchain.py:434-437 | a concrete run with two holders after such a cancellation |
| NonceManager.FirstComeFirstServed | servers/common/services/blockchain.py:417-420 | without cancellations in the queue tasks get the lock in order of arrival |
| NonceManager.QueueNeverStuck | servers/common/services/blockchain.py:417-437 | while anybody waits, somebody holds the lock or the head of the queue can resume |
| NonceManager.NoncesGrow | servers/common/services/blockchain.py:417-432 | a task whose predecessor saw the pending count advance gets a strictly larger nonce |
| NonceManager.NoncesNeverGoBack | servers/common/services/blockchain.py:417-432 | in every run without a cancellation behind a held lock nonces never decrease, and one whose predecessor saw the pending count advance is above all before it |
| NonceManager.NextNonceExceedsIff | servers/common/services/blockchain.py:417-420 | in every run a task is sure to get a nonce above the last one taken exactly when the pending count had passed that nonce as it took the lock; otherwise it can get the very same one |
| NonceManager.GivingUpCanRepeatNonce | servers/common/services/blockchain.py:422-432 | after exactly twenty failed polls the next task can get the same nonce |
| NonceManager.NonceManager.GetLock | servers/common/services/blockchain.py:410-415 | making an entry changes no address's lock |
| NonceManager.NonceManager.Acquire | servers/common/services/blockchain.py:417-420 | the lock if free and nobody waits, otherwise a place in the queue; other addresses untouched |
| NonceManager.NonceManager.ResumeAcquire | servers/common/services/blockchain.py:419 | the woken waiter leaves the queue and holds the lock; other addresses untouched |
| NonceManager.NonceManager.PollForCommit | servers/common/services/blockchain.py:422-431 | stops at the first count above the nonce, within twenty polls, failed ones included |
| NonceManager.NonceManager.ReleaseHeld | servers/common/services/blockchain.py:432 | releases, or raises when the lock is not held; other addresses untouched |
| NonceManager.NonceManager.ReleaseQuietly | servers/common/services/blockchain.py:434-437 | releases if locked; other addresses untouched |
| NonceManager.NonceManager.Exit | servers/common/services/blockchain.py:390-393 | both releases together free the lock once and wake the head of the queue |
| GasCalculator.GasCalculator.GetCurrent | servers/common/services/blockchain.py:178-214 | the new stored price, or no change when the node cannot be asked |
| GasCalculator.CurrentIs | servers/common/services/blockchain.py:178-214 | the price in full: the node's where it is admitted, times the multiplier, between the lower limits and the hard maximum |
| GasCalculator.LastPriceIs | servers/common/services/blockchain.py:167-173 | what the last price admits, in whole units |
| GasCalculator.FailedRefreshesDoNotCount | servers/common/services/blockchain.py:178-179 | over whole runs failed refreshes leave no trace |
| GasCalculator.PriceGrowsAtMostGeometrically | servers/common/services/blockchain.py:167-214 | after k answered refreshes the price is at most the ceiling for k, whatever the node says |
| GasCalculator.CeilingIsPower | servers/common/services/blockchain.py:167-198 | that ceiling is B * (m * (1 + p/100))^k |
| GasCalculator.NeverAboveHardMax | servers/common/services/blockchain.py:207-208 | no stored price exceeds a hard maximum that is set |
| GasCalculator.NeverBelowHardMinIff | servers/common/services/blockchain.py:200-208 | every stored price respects the hard minimum exactly when the hard limits are consistent |
| GasCalculator.BeatsServiceValueIff | servers/common/services/blockchain.py:203-208 | the price beats the limit service's value exactly when the hard maximum allows it |

## Left out

- HTTP endpoints, RPC, JSON payloads, DNS and the exchange engines' field mapping: their results are parameters, and every theorem holds for all of them.
- ECDSA, Keccak and SHA-256: a digest is any 32 bytes and a signature anything the verification relation accepts; recovery is not modelled.
- Decimal and float rounding: prices, weights, percentages and timestamps are exact rationals, so the 28-digit context and float truncation are not captured.
- OracleTurn.PriceOracleTurn.PriceChangedBlocks: the current configuration is an argument of each query, so it may change between queries; how the registry is loaded is not modelled.
- TurnTheorems.EligibilityPersists: stated for one publication and one signal state; runs that mix publications are covered by `OracleTurn.LatchAnswers`.
- TurnTheorems.ModeChangeRestartsExpiryWindow: a query reads one signal state throughout; a refresh landing between its readings is not captured. The threshold and the period may then come from different modes, and a transition first noticed by the reading made for the log line (servers/oracle/src/oracle_turn.py:285) is recorded after the window was fixed. What happens after the period is read (:262) is covered by `TurnTheorems.ExpiryStartAmidRefresh`.
- SignalRefresh.EveryReadingIsOneFetch: one `offline_cfg` call is a single step, so a refresh landing between two of its statements is not captured.
- ConditionalPublish.SignalService.SyncFetch: the construction of the calls from configured addresses is not modelled; a call list is any sequence of calls.
- NonceManager.EveryRunIsExclusive: the lock is the asyncio.Lock of Python 3.8, with cancellation of a waiter as one step; its short-lived cancelled-but-still-queued state is not captured.
- NonceManager.NonceManager.PollForCommit: this and the other methods of the class are the pieces between suspensions; their interleaving is the machine of the same module, for one address, since every address has its own lock.
- Executor.EachFutureReadsItsOwnCall: `cancel_pending` is not a step of the machine, a task's execution under its own condition lock is one step, and of the pool only whether it holds an instance is modelled, not its rate limiting.
- GatherSignatures.GatherSignatures: the peers' replies, the order in which they complete and the deadline are inputs; the HTTP exchange that produces a reply is not modelled.
- Quorum.SendsIff: the DEBUG-only logging branch of `publish`, which recovers signers, is not modelled.
- Quorum.PublishedPricesAreClose: that a verified signature was given by a node standing for the price is a hypothesis (no forgery), and both prices are checked against one exchange price per node.
- Encoding.AddressReadsBack: `int(s, 16)` is modelled on an optional prefix and hexadecimal digits; signs, underscores and surrounding spaces, which Python also accepts, are errors here.
- PriceFeeder.GetWeightedFrom: with no finite price the model returns the error that unpacking raises; the later test in the code is dead.
- Multicall.W3Multicall.CallAll: ABI encoding and decoding are one abstract decoder, which may decline any output.
- Task validation before the first poll uses the initial latch 0, which the model reproduces.
- Transaction building and receipts, the main and per-pair background loops, the monitor, the pool's rate limiting, scripts and container tooling: none of them decides an order, a turn, a price, a signature set, a nonce or a gas price.
- The contracts on chain are not part of this model.
