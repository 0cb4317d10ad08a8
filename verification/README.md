# Verified model of the topic discovery protocol

This project models how a node of a gossip topic publishes itself in the DHT, reads the records of
other nodes, bootstraps from them, detects splits and shuts down, and proves what the protocol keeps
over every input, every interleaving and every run. `dafny verify dfyconfig.toml` checks all of it.

| file | models |
|---|---|
| `Wrappers.dfy`, `Bytes.dfy`, `Durations.dfy` | results and errors, little-endian integers, waiting times |
| `Library.dfy` | the library calls (Ed25519, HPKE, key rotation, postcard) as an arbitrary value with stated laws |
| `Record.dfy` | records, signatures, and the two nested byte formats |
| `RecordPublisher.dfy` | reading a slot (decode, decrypt, verify, dedup) and publishing into it |
| `SlotCapacity.dfy` | the check-then-put protocol as steps of any number of nodes on one slot |
| `CapacityLimits.dfy` | the exact limit of that protocol: runs that reach the bound |
| `PublishSteps.dfy` | the publishing code takes the steps of that protocol |
| `GossipReceiver.dfy`, `Publisher.dfy` | the window of message hashes and the zero-padded arrays published from it |
| `SplitDetection.dfy`, `PeerExtraction.dfy`, `GossipSender.dfy`, `Merge.dfy` | the overlap test, the three peer extractions, bounded join requests, one check of each merge actor |
| `BootstrapIteration.dfy`, `Bootstrap.dfy` | one iteration and whole runs of the bootstrap loop |
| `Discovery.dfy` | the end-to-end results across all of these |
| `Ticker.dfy`, `Dht.dfy` | the tick schedule of the background actors, the retrying put |
| `TopicLifetime.dfy` | reference counts, keep-alive handles and the cancel token |

How the source is represented:

- What a component cannot control is an input of arbitrary value: clock readings, DHT answers, join
  status, the branch a `select!` takes, random numbers, and the order in which sets are traversed.
- The library laws (`Library.Laws`) are: verifying what was signed succeeds, opening what was sealed
  returns it, a ciphertext is 56 bytes longer than its plaintext, a derived verifying key parses, and a
  gossip content encodes to 320 bytes and decodes back. `Library.LawsAreConsistent` shows they can
  hold together. Nothing else is assumed of these calls.
- A run of the bootstrap loop is observed for some number of iterations, of which the log says
  everything that happened. One iteration is a method of its own, with its joining phase and its two
  publish sites (which do the same) factored out.
- The capacity protocol is stated for any slot whose reads count the other publishers; the slots of the
  DHT are then shown to be such.

Where code and documentation differ, the code is followed: the startup publish makes the capacity check
like any other (`src/gossip/topic/bootstrap.rs:119-124`, against `src/config.rs:805`); a merge joins at
most its own `max_join_peers` (`src/gossip/merge/bubble.rs:178`, against `PROTOCOL.md:262`); the bubble
merge also joins publishers, not only their peers (`src/gossip/merge/bubble.rs:159-164`).

Results that correct an expectation:

- The capacity limit holds for nodes whose reads succeed. A failed read in the bootstrap loop counts as
  an empty slot, and every such node can raise the number of publishers by one: the limit that holds in
  all runs is exactly max - 1 + c plus the number of failed reads (`CapacityLimits.LimitIsExact`), so it
  is kept if and only if there are none (`CapacityLimits.CapacityNeedsReads`).
- A minute can be published again when the wall clock steps back (`Bootstrap.ClockStepsBack`): apart from
  the two startup options, a minute gets a second attempt if and only if the clock returns to it after
  another minute (`Bootstrap.PublishDiscipline`).
- `EncryptedRecord` accepts inputs of up to 2140 bytes but writes at most 2048
  (`Record.LongestAcceptedInput`), so re-encoding is exact only up to 2048 bytes.
- The status check after the joins does not set the result flag, so a run can end in an error although a
  check answered "joined" (`Bootstrap.PositiveAnswerIsMissed`). This happens if and only if all positive
  answers came from that check (`Bootstrap.OutcomeIsExact`), and never with a status that is stable within
  an iteration (`Bootstrap.StableStatusDecidesOutcome`).

## Model

| member | source | states |
|---|---|---|
| Record.ParseAfterSerialize | src/crypto/record.rs:511-544 | deserialising a serialised record returns it, for content of any length |
| Record.SerializeAfterParse | src/crypto/record.rs:511-544 | deserialising accepts exactly byte strings of at least 136 bytes, and serialising the result gives the same bytes: the codec is a bijection |
| Record.SerializeRecord | src/crypto/record.rs:536-544 | the buffer grown in place is the record's encoding |
| Record.SignRecord | src/crypto/record.rs:488-508 | the buffer grown for signing leads to the specified signed record |
| Record.SignatureDataInjective | src/crypto/record.rs:495-499 | the signed encoding determines topic, minute, key and content |
| Record.VerifiedBytesAreSignedBytes | src/crypto/record.rs:555-556 | the bytes whose signature is checked are the bytes that were signed |
| Record.VerifyChecksAll | src/crypto/record.rs:547-563 | verification accepts exactly a record of the slot's topic and minute with a well-formed key and a signature under it over topic, minute, key and content |
| Record.SignedRecordVerifiesExactly | src/crypto/record.rs:547-563 | a signed record sent over the wire verifies for its own topic and minute and for no other |
| Record.SerializeEncrypted | src/crypto/record.rs:444-457 | the buffer grown in place is the encoding, refused above 2048 bytes |
| Record.ParseEncrypted | src/crypto/record.rs:460-483 | which byte strings are accepted, with their lengths between 92 and 2140 |
| Record.ParseAfterEncryptedBytes | src/crypto/record.rs:443-483 | the length cast is lossless on everything written, and reading back returns the value exactly when its key part has 88 bytes, else a length mismatch |
| Record.EncryptedBytesAfterParse | src/crypto/record.rs:443-483 | re-encoding an accepted input gives the same bytes exactly when there are at most 2048 |
| Record.LongestAcceptedInput | src/crypto/record.rs:467-475 | an accepted input of 2140 bytes that cannot be written back |
| Record.DecryptAfterEncrypt | src/crypto/record.rs:431-580 | decrypting an encrypted record under the same key returns it |
| Record.DecryptsExactly | src/crypto/record.rs:431-441 | exactly what decrypts, and to which record |
| Record.WireRoundTrip | src/crypto/record.rs:428-457 | both layers together succeed exactly for content of at most 1764 bytes, take 284 bytes more than it, and read back to the same record |
| Record.GossipRecordsFit | src/crypto/record.rs:428-457 | every gossip record encodes to 604 bytes, so publishing never fails on size |
| RecordPublisher.Dedup | src/crypto/record.rs:389-413 | the table loop returns exactly the winning records: per publisher, the first item with the greatest sequence number |
| RecordPublisher.GetRecords | src/crypto/record.rs:362-424 | any answer yields exactly the winners among the items that decode, decrypt, verify and are not the node's own; failure and cancellation are errors |
| RecordPublisher.OneRecordPerPublisher | src/crypto/record.rs:396-413 | exactly one record per publisher, so collecting into a set loses none and its size is the number of publishers |
| RecordPublisher.FirstHonestItemWins | src/crypto/record.rs:328-399 | among items with the sequence number every put uses, the first of a publisher wins, and only it |
| RecordPublisher.PublishersPermutation | src/crypto/record.rs:389-413 | the publishers read, and their number, do not depend on the order of the answer |
| RecordPublisher.PublishersMonotone | src/crypto/record.rs:389-413 | adding items never removes a publisher |
| RecordPublisher.AdmittedExactly | src/crypto/record.rs:389-395 | an item is admitted exactly if it decrypts, under the key of the slot's topic, minute, rotation and secret, to a record of the slot validly signed by another node |
| RecordPublisher.RecordsAreVerified | src/crypto/record.rs:391-395 | every record read belongs to its slot, carries its publisher's valid signature, comes from an item of the answer and is not the node's own |
| RecordPublisher.HonestItemAdmitted | src/crypto/record.rs:318-395 | a published gossip record is always built and is admitted by every other node with the same topic, secret and rotation |
| RecordPublisher.PublishRecordCached | src/crypto/record.rs:292-356 | a put is sent exactly if no cancellation comes before, the slot is known to hold fewer records than the limit and the record fits; it goes to the record's own slot and reads back to the record; a full slot, a failed read, a cut put and a failed put are told apart |
| SlotCapacity.CapacityHolds | src/crypto/record.rs:298-346 | over every interleaving with at most c nodes between read and put, those that published or are about to number at most max - 1 + c, plus the nodes that took a failed read for an empty slot; with max = 0 nothing is ever put |
| SlotCapacity.WhoCounts | src/crypto/record.rs:298-346 | who has published, who is about to, and who is between read and put |
| SlotCapacity.StepKeepsBound | src/crypto/record.rs:298-346 | the inductive bound on publishers and candidates is kept by every step, cached, uncached and startup publishes included |
| SlotCapacity.ReadCountsOthers | src/crypto/record.rs:389-413 | a read whose answer contains all completed puts counts at least the other publishers, whatever else the answer holds |
| SlotCapacity.RealSlotsAreValid | src/crypto/record.rs:298-346 | the slots of the DHT meet the protocol's assumption, and reading just the completed puts counts no more than their authors |
| CapacityLimits.BoundIsReached | src/crypto/record.rs:298-346 | for every limit, every c and every number of failed reads, a run in which max - 1 + c nodes and one for each failed read publish |
| CapacityLimits.LimitIsExact | src/crypto/record.rs:298-346 | the limits that hold in all runs with c nodes between read and put are exactly those of at least max - 1 + c plus the number of failed reads |
| CapacityLimits.CapacityNeedsReads | src/gossip/topic/bootstrap.rs:165-171 | with enough nodes max - 1 + c is kept if and only if no failed read is taken for an empty set |
| CapacityLimits.RealLimitIsExact | src/crypto/record.rs:298-346 | both for the slots of the DHT and nodes of one group |
| PublishSteps.PublishDecidesAndPuts | src/crypto/record.rs:310-342 | what a publish puts, and whether, is what the protocol's decision and put steps do in any state others have left |
| PublishSteps.UncachedPublishTakesSteps | src/crypto/record.rs:298-356 | a publish that reads the slot itself takes the steps read, decide and put, or is abandoned |
| PublishSteps.CachedAttemptTakesSteps | src/gossip/topic/bootstrap.rs:165-209 | an attempt with cached records starts with the loop's read, or its failed read, and then decides and puts |
| PublishSteps.TasksComeAndGo | src/gossip/topic/bootstrap.rs:389-403 | a participant can start a publish at any time, a put can be retried, and every task can be given up |
| GossipReceiver.GossipReceiverActor.Receive | src/gossip/receiver.rs:213-218 | the deque keeps the newest five hashes of the history |
| GossipReceiver.GossipReceiverActor.Run | src/gossip/receiver.rs:181-246 | after any turns the window is that of all messages heard, subscribers got every event and wake-up in order and one final close, and a finished or failed stream cancels the token |
| Publisher.FillSlots | src/gossip/topic/publisher.rs:126-134 | entry by entry, the fixed array holds the first values and zeros |
| Publisher.BuildContent | src/gossip/topic/publisher.rs:100-136 | the content is built from at most five neighbours and the hash window |
| Publisher.PaddingIsUndone | src/gossip/topic/publisher.rs:126-134 | dropping the zeros of the array gives back the non-zero values in order |
| Publisher.PublishedWindow | src/gossip/receiver.rs:211-218 | a reader recovers the non-zero hashes of the author's window, in order, and its non-zero neighbours |
| Publisher.Publish | src/gossip/topic/publisher.rs:97-158 | a put happens exactly if the actor answers, the read succeeds and the slot is not full, and it is the item of that content |
| SplitDetection.FlagsExactlyDisjointWindows | src/gossip/merge/message_overlap.rs:120-140 | for any histories a record is flagged exactly when both windows count and their non-zero hashes are disjoint |
| SplitDetection.SharedStreamFlagged | src/gossip/merge/message_overlap.rs:120-140 | on one stream, exactly when both have heard something and are at least five messages apart |
| PeerExtraction.CollectBootstrapNodes | src/gossip/topic/bootstrap.rs:223-241 | the extraction with its inner loop collects exactly the usable publishers and non-zero active peers, the node itself only as a publisher |
| PeerExtraction.CollectOverlapPeers | src/gossip/merge/message_overlap.rs:150-174 | the extraction with its inner loop collects exactly the usable publishers and non-zero active peers other than the node and its neighbours |
| PeerExtraction.MergesExtractTheSame | src/gossip/merge/bubble.rs:136-167 | both merges extract, from any records, exactly the usable advertised peers other than the node and its neighbours |
| PeerExtraction.BootstrapExtractsTheSame | src/gossip/topic/bootstrap.rs:223-241 | the bootstrap nodes differ only by the neighbours, and contain the node itself exactly if some record carries its key |
| PeerExtraction.ExtractionsAgree | src/gossip/merge/bubble.rs:136-167 | on records that were read the three extractions agree up to the neighbours and none contains the node itself |
| PeerExtraction.CandidatesExactly | src/gossip/merge/bubble.rs:136-167 | the candidates are exactly the usable keys that are a record's publisher or a non-zero entry of its decoded active peers |
| GossipSender.JoinPeers | src/gossip/sender.rs:82-87 | under any shuffle exactly min(max, candidates) of the given peers are sent, none twice |
| Merge.BubbleMerge | src/gossip/merge/bubble.rs:110-192 | a request is sent exactly if both reads succeed, there are fewer neighbours than the minimum and some candidate; it is bounded, distinct and made of candidates |
| Merge.MessageOverlapMerge | src/gossip/merge/message_overlap.rs:101-200 | the same for the peers of flagged records |
| Merge.FlaggedExactly | src/gossip/merge/message_overlap.rs:120-140 | on any content: flagged exactly with some non-zero hash, none of them in a non-empty local window |
| Merge.RequestedPeersAreNewAndAdvertised | src/gossip/merge/message_overlap.rs:150-188 | every requested peer is usable, a publisher or decoded active peer of a record read, and neither the node nor a neighbour |
| BootstrapIteration.JoinOneByOne | src/gossip/topic/bootstrap.rs:265-302 | distinct nodes are asked in arbitrary order up to the first that stops the joining, with one status check per request sent |
| BootstrapIteration.Connect | src/gossip/topic/bootstrap.rs:251-335 | which peers are asked, which checks are made, and when the publish decision is reached |
| BootstrapIteration.Iterate | src/gossip/topic/bootstrap.rs:130-372 | one iteration: slots read, nodes, joins, checks, attempt and ending, and the new minute and flag |
| BootstrapIteration.LoopGoesOn | src/gossip/topic/bootstrap.rs:130-372 | exactly when an iteration reaches its end unjoined, and that only the token keeps the loop from going on then |
| BootstrapIteration.EmptyRecordIsEmpty | src/gossip/topic/bootstrap.rs:108-118 | a bootstrapping node publishes a validly signed record without peers and hashes |
| BootstrapIteration.IterationFacts | src/gossip/topic/bootstrap.rs:265-371 | an iteration that ends unjoined with no other answer has asked every node; a positive last answer leaves the loop |
| Bootstrap.StartBootstrap | src/gossip/topic/bootstrap.rs:89-386 | whole runs: startup publish, no iteration after cancellation or after leaving, one result on exit, `Ok` exactly if a check other than the one after the joins was positive |
| Bootstrap.ResultHasAReason | src/gossip/topic/bootstrap.rs:130-386 | a result is sent only if the token fired or some check of the last iteration did not answer "not joined" |
| Bootstrap.LastWakeDecides | src/gossip/topic/bootstrap.rs:212-216 | the token in the last wait of an iteration ends the loop, a join signal or the end of the wait does not |
| Bootstrap.UndisturbedLoopGoesOn | src/gossip/topic/bootstrap.rs:130-386 | without the token and with nothing but "not joined" no result is sent |
| Bootstrap.OlderPairOnlyFirst | src/gossip/topic/bootstrap.rs:144-172 | the slots c - 2 and c - 1 are read in exactly the first iteration past its join check when configured, otherwise c - 1 and c |
| Bootstrap.CachedRecordsBelongToTheirMinute | src/gossip/topic/bootstrap.rs:199-209 | every record of a cached set belongs to the minute being published |
| Bootstrap.LastPublishedIsNewest | src/gossip/topic/bootstrap.rs:92-188 | with a clock that does not go back the variable holds the newest minute in which an iteration ended unjoined, else its initial value |
| Bootstrap.AttemptCount | src/gossip/topic/bootstrap.rs:100-126 | the exact number of publish attempts for every minute, whatever the clock does: one per return to the minute, and one for a startup publish the loop does not take into account |
| Bootstrap.PublishDiscipline | src/gossip/topic/bootstrap.rs:100-126 | whatever the clock does, a minute has an attempt exactly if an iteration ended unjoined in it or the startup publish was for it, and a second one exactly if the clock came back to it or both startup options are set |
| Bootstrap.PublishedOncePerMinute | src/gossip/topic/bootstrap.rs:100-126 | with a clock that does not go back the number of attempts is 0, 1, or 2 at startup with both options set, and which |
| Bootstrap.RunOfMinutes | src/gossip/topic/bootstrap.rs:130-372 | every sequence of minutes occurs as that of the unjoined iterations of a run |
| Bootstrap.ClockStepsBack | src/gossip/topic/bootstrap.rs:174-188 | a run in which the clock steps back and the loop publishes twice for a minute |
| Bootstrap.OutcomeIsExact | src/gossip/topic/bootstrap.rs:265-381 | the result agrees with "some check was positive" if and only if not all positive answers came after the joins; each missed one is followed by an unconfirming check |
| Bootstrap.PositiveAnswerIsMissed | src/gossip/topic/bootstrap.rs:304-335 | a run with such an answer that ends in an error, for every non-empty slot |
| Bootstrap.StableStatusDecidesOutcome | src/gossip/topic/bootstrap.rs:265-381 | with a status stable within iterations, `Ok` is sent exactly if some check was positive, and that iteration is the last |
| Bootstrap.JoinsAreTheNodes | src/gossip/topic/bootstrap.rs:223-302 | only nodes found in the records are asked, never the node itself, none twice, and all of them if nothing interrupts |
| Bootstrap.PublishRecordFireAndForget | src/gossip/topic/bootstrap.rs:389-403 | the task puts the node's item exactly if the cached or fetched slot is not full |
| Discovery.ReadAmidNoise | src/crypto/record.rs:389-413 | an author whose item is anywhere in an answer is read, whatever surrounds it |
| Discovery.AuthorIsDiscovered | src/gossip/topic/bootstrap.rs:157-302 | an author who published for a slot is a bootstrap node of every iteration that reads the slot with the item in the answer, and is asked to join unless something else ends the iteration |
| Discovery.PublishedPeersAreFound | src/gossip/merge/bubble.rs:136-167 | each usable neighbour among the first five an author published, and the author, is extracted by all three, unless the reader or its neighbour |
| Discovery.PublishedPeersAreNodes | src/gossip/topic/bootstrap.rs:223-302 | and is a node of every bootstrap iteration that reads the slot with the item |
| Discovery.UnjoinedNodeIsDiscovered | src/gossip/topic/bootstrap.rs:174-302 | an iteration that ends unjoined at a minute whose slot has room makes its node known to every other node's iteration of that minute or the next whose read returns the completed puts |
| Discovery.SplitIsSeen | src/gossip/merge/message_overlap.rs:120-140 | across publish, wire and read, the author's record is flagged exactly when the windows are disjoint |
| Discovery.SplitIsJoined | src/gossip/merge/message_overlap.rs:101-200 | with disjoint windows the merge sends a request, which asks the author and its published neighbours if the limit covers all candidates |
| Discovery.LagIsSeenAsSplit | src/gossip/merge/message_overlap.rs:120-140 | the same on one stream: exactly at five messages apart or more |
| Ticker.TickerActor.OnTick | src/gossip/topic/publisher.rs:73-86 | the tick, the handler and the new deadline with jitter |
| Ticker.TickerActor.Run | src/gossip/topic/publisher.rs:63-92 | times, ticks and waits after any turns are those of the schedule; ticks stay at least the base interval apart, waits within base and base plus jitter |
| Ticker.RateBound | src/gossip/topic/publisher.rs:73-86 | a window of length T holds at most T / B ticks, rounded up |
| Ticker.ActorRateBound | src/gossip/merge/bubble.rs:85-98 | the same for an actor with its interval of at least one second |
| Durations.Jitter | src/dht.rs:156-162 | the truncated random part is below the maximum, and below 2^64 |
| Dht.DhtActor.PutMutable | src/dht.rs:111-174 | `Ok` exactly if one of the first 1 + retries attempts is answered with success within the timeout and every reset before it works; resets, sleeps and times of the attempts are accounted for |
| Dht.PutTimeIsBounded | src/dht.rs:122-171 | k retried failures take k resets and k sleeps within their bounds, and the call takes at most (1 + retries) timeouts and retries sleeps |
| TopicLifetime.TokenFollowsHoldings | src/gossip/topic/topic.rs:35-150 | after any operations the token is cancelled exactly if, by the list of operations, the user holds no topic, sender or receiver and no upgrade is open, or one of them was a fault |
| TopicLifetime.HeldThingsWork | src/gossip/topic/topic.rs:120-150 | whatever the user holds by that list can be cloned, dropped and asked for handles |
| TopicLifetime.CancelledExactlyWhenUnused | src/gossip/topic/topic.rs:35-150 | the same on the state, whose count is what user and upgrades hold |
| TopicLifetime.StepKeepsShares | src/gossip/topic/topic.rs:128-150 | every shared topic is counted by exactly the handles that keep it alive, under every operation |
| TopicLifetime.InternalRunDoesNotCount | src/gossip/topic/topic.rs:250-368 | any number of operations on handles of the bootstrap loop and the workers changes neither the count nor the token |
| TopicLifetime.ShutdownIsFinal | src/gossip/topic/topic.rs:35-39 | cancellation is permanent, and no weak upgrade revives a dropped actor |
| TopicLifetime.TopicActor.SpawnWorkers | src/gossip/topic/topic.rs:178-248 | workers start in order, the first fatal failure stops the rest, and which run afterwards |
| TopicLifetime.TopicActor.AfterBootstrap | src/gossip/topic/topic.rs:84-102 | the waiting task cancels the token exactly on a failed bootstrap or, for asynchronous topics, a fatal worker start, and takes the listed operations |
| TopicLifetime.AfterBootstrapIsARun | src/gossip/topic/topic.rs:84-248 | its weak upgrades and its cancellation are a run of the state machine that changes nothing but the token, and that exactly on a fault |
| Library.LawsAreConsistent | src/crypto/record.rs:566-580 | the laws assumed of the libraries can hold together |

## Left out

- SlotCapacity.CapacityHolds: assumes that a get which succeeds returns every completed put of the slot, since the DHT's routing, storage nodes and sequence-number rules are not part of this model.
- Bootstrap.PublishDiscipline: says nothing about minute 0, which the loop cannot tell from "not yet published".
- Merge.BubbleMerge: needs a minute of at least 1, because `unix_minute - 1` underflows at 0.
- Merge.MessageOverlapMerge: needs a minute of at least 1 for the same reason.
- Ticker.TickerActor.Run: does not model the overflow of a duration near 2^64 seconds; tokio's interval is reduced to a next-deadline variable.
- Dht.DhtActor.PutMutable: resets take no time, and each client is only known to exist.
- TopicLifetime.AfterBootstrapIsARun: follows the task without other operations in between; each single start is `StartLeavesState`, which holds in any state.
- TopicLifetime.CancelledExactlyWhenUnused: assumes that an actor is dropped with its last handle; a request for a handle in flight counts as that handle.
- Ed25519 (section 5.1 of RFC 8032), HPKE (RFC 9180), SHA-512 and the postcard codec: library calls, known only through the laws above; unforgeability is not assumed and nothing about forged records is claimed.
- Key derivation in `src/crypto/keys.rs`: a function of topic, minute, rotation and secret; the slot's signing key and salt are identified with topic and minute.
- iroh-gossip, endpoints and routers: join status, neighbours and events are inputs.
- Broadcast channel lag and the clone details of the receiver (`src/gossip/receiver.rs:31-58`): they depend on tokio's channels.
- The synchronous wait in `Topic::new` (`src/gossip/topic/topic.rs:104-117`): its worker start is the same, its early returns drop the only `Topic`.
- The single read under a timeout in `src/dht.rs:85-109`: an answer or a failure.
- Builders and getters of `src/config.rs`, logging, error texts, examples and scripts: easy or without effect on the protocol.
