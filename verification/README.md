# Whisper v6 node: a verified model

This project models the in-memory node of the Whisper v6 protocol (EIP-627) and proves what
its parts promise each other. Concurrency is modelled by machines whose runs are sequences of
actions; an action that is not enabled changes nothing, so every sequence is a run and a
statement about every run is a statement about every interleaving.

| file | content |
|---|---|
| `Types.dfy`, `Bits.dfy`, `Sums.dfy`, `Crypto.dfy` | machine integers, envelopes, binary digits, order-free sums, and the laws taken for granted of the cryptographic library |
| `Bloom.dfy` | topic filters as sets of 512 bit positions |
| `Work.dfy`, `Rlp.dfy` | length of the hashed encoding, value of a nonce, sealing; the encoding byte by byte |
| `Frame.dfy` | building, signing and parsing the message frame |
| `Gate.dfy` | the checks of `add` |
| `Pool.dfy` | the pool, its expiry index and statistics, as values and as an object |
| `Interleaving.dfy`, `Calls.dfy` | concurrent additions and expiry cycles over the pool; what becomes of one call, told by the actions of the run |
| `Resend.dfy` | one peer's update loop over that pool |
| `Offers.dfy` | what a peer can hold and send, and how far its judgement of work and the receiver's can lie apart |
| `Exchange.dfy` | a node changing its requirements while a peer keeps sending |
| `Peer.dfy` | the peer object: advertised filter, known digests, broadcast |
| `Delivery.dfy`, `Filters.dfy` | decrypting once for all filters, the filter index, message stores |
| `Subscriptions.dfy` | the node's own topic filter under subscriptions |
| `DirectQueue.dfy` | the queue the message loops of the peers share |
| `MailServer.dfy` | the mail-server response payload |

The methods of the objects are proved against functions on values. The pool and the filter index
are stepped by the same functions as their machines. The settings object follows the machine of
`Exchange.dfy` step by step; of the machine of `Resend.dfy`, the uninterrupted rounds are those of
the peer object (`Resend.WholeBroadcast`, `Resend.ObjectChooses`, `Resend.WholeCheck`).

Where the code does less than its comments or its design suggest, the exact condition or a run that shows it is given:

- a topic whose indices share a byte of the filter sets fewer than three bits
  (`Bloom.TopicBitCount`);
- a payload of 2^24 bytes or more does not survive its own frame, signed or not
  (`Frame.UnsignedRoundTripExact`, `Frame.SignedRoundTripExact`);
- the sealing target is met for every digest exactly when the hashed encoding is no longer than
  `size()` (`Work.TargetSufficesExact`, `Work.LengthLimitExact`);
- the 32-bit time checks misjudge two families of envelopes (`Gate.TimeGateExact`,
  `Gate.ClockRangeExact`);
- nothing the peer was asked for is turned down exactly when, at every receipt, the work the peer went
  by is no lower than the lower of requirement and tolerance, and no two positions it went by, as one
  topic can have them, are missing one from each of the two filters (`Exchange.ScheduleExact`,
  `Exchange.ScheduleInNumbers`); overlapping changes break this (`Exchange.OverlapRejects`), and so
  does a receiver that is behind, because an envelope of lifetime zero is worth more than anything to
  its sender and little under a penalty (`Exchange.SlowClockRejects`);
- an unset work tolerance reads as 0.2 and not, as its comment says, as the requirement, so timely
  schedules are safe from 0.2 on (`Exchange.UnsetToleranceExact`);
- a digest can be broadcast twice to a peer exactly when it is inserted twice, which, if the
  clock does not go back, takes a call of `add` that inserts after the expiry (`Resend.ResendExact`, `Resend.NeverResent`,
  `Resend.SlowAddIsResent`);
- a digest received from a peer can be sent back to it, though pooled all the time, exactly if the
  peer's loop had found it missing and not yet removed it from the known ones (`Resend.EchoExact`);
- delivery depends on the order of filters exactly when the envelope's work was not computed
  beforehand and a filter that is due demands work (`Delivery.DecryptOnceExact`);
- the topic index is right throughout a run exactly when no filter is removed while it is installed
  a second time (`Filters.IndexRefinesScan`); what it finds otherwise is also stated
  (`Filters.FoundExactly`);
- a completion whose request begins with `ERROR=`, or with a cursor of another length, is misread
  (`MailServer.CompletedRoundTripExact`).

What is taken for granted of libraries and surroundings is a parameter or a precondition: digest,
signature and decryption functions with the laws in `Crypto.dfy`; the number of leading zero bits
of a work digest; clock readings; the order in which a map is walked; random identifiers and
padding. Work values are exact rationals, with infinity for a lifetime of zero.

## Model

| member | source | states |
|---|---|---|
| Bloom.BloomFilterMatch | whisperv6/whisper.go:1567-1581 | the byte loop decides whether the sample's bit positions are a subset of the filter's; an absent filter accepts everything |
| Bloom.AddBloom | whisperv6/whisper.go:1583-1589 | the result stands for the union of the two sets of positions |
| Bloom.MembersDetermine | whisperv6/whisper.go:1567-1589 | filters are sets: equal members mean equal bytes |
| Bloom.TopicToBloom | whisperv6/envelope.go:256-272 | the positions set are, in each byte touched, that of the last index falling there |
| Bloom.TopicBitCount | whisperv6/envelope.go:247-272 | as many bits as distinct bytes touched, between one and three |
| Bloom.IndexExact | whisperv6/envelope.go:256-264 | each of the three lowest bits of the fourth byte is the ninth bit of one index; the indices tell apart exactly the topics that differ in these bits or in the first three bytes |
| Bloom.IsFullNode | whisperv6/whisper.go:1555-1565 | true for an absent filter and for filters of nothing but ones |
| Bloom.OnesAreEverything | whisperv6/peer.go:273-279 | the filter of ones is the only one that accepts every position |
| Work.DataLimit | whisperv6/envelope.go:52-60 | for lifetimes below 2^24 seconds the limit is at least 65518 bytes |
| Work.LengthWithinLimit | whisperv6/envelope.go:52-60 | whatever the expiry, data within the limit of its lifetime make the hashed encoding fit `size()` |
| Work.LengthLimitExact | whisperv6/envelope.go:52-60 | from expiry 2^24 on, the encoding fits `size()` exactly up to the limit |
| Rlp.HeaderExact | vendor/github.com/ethereum/go-ethereum/rlp/encode.go:114-133 | reading a length prefix undoes writing it, and nothing else reads as one |
| Rlp.StringExact | vendor/github.com/ethereum/go-ethereum/rlp/encode.go:163-182 | the same for byte strings, single bytes included |
| Rlp.WithoutNonce | whisperv6/envelope.go:57-60 | the hashed bytes have the length that the work is divided by |
| Rlp.WithoutNonceReads | whisperv6/envelope.go:57-60 | they read as a list of expiry, lifetime, topic and data, in this order |
| Rlp.WithoutNonceInjective | whisperv6/envelope.go:57-60 | no two envelopes that differ in these fields have the same hashed bytes |
| Rlp.Packet | whisperv6/peer.go:281-285 | the packet with one envelope has the length that is compared with the limit |
| Work.TargetBits | whisperv6/envelope.go:145-156 | the least positive bit count whose power of two reaches the scaled target |
| Work.TargetExact | whisperv6/envelope.go:145-156 | a positive number of zero bits is worth the target over `size()` exactly from the target bits on, for every target, size and lifetime |
| Work.WorkIsComputed | whisperv6/envelope.go:125-143 | a computed value is never the "not computed" mark |
| Work.TargetSuffices | whisperv6/envelope.go:132-156 | enough zero bits for the target bits are worth the target if the encoding fits `size()` |
| Work.TargetSufficesExact | whisperv6/envelope.go:132-156 | for a lifetime other than zero, this holds for every target and bit count exactly when the encoding fits `size()` |
| Work.Draft.constructor | whisperv6/envelope.go:64-74 | expiry is the clock plus the lifetime modulo 2^32, nonce zero, nothing cached |
| Work.Draft.Seal | whisperv6/envelope.go:78-121 | a positive target ends at the first nonce with a zero bit that is worth the target over `size()`, or fails with none such among those tried and the best kept; a negative one keeps a best nonce and moves the expiry; zero changes nothing |
| Work.Draft.CalculatePoW | whisperv6/envelope.go:132-143 | caches the value for the stored nonce and penalty |
| Work.Draft.PoW | whisperv6/envelope.go:125-130 | computes at most once; a cached value stays |
| Work.Draft.SealedWork | whisperv6/envelope.go:78-143 | a fresh envelope sealed with a positive target is worth at least the target, for data within the limit |
| Frame.BytesToUintLittleEndian | whisperv6/whisper.go:1497-1504 | the little-endian value modulo 2^64 |
| Frame.LittleEndianDigit | whisperv6/whisper.go:1497-1504 | byte `i` is digit `i` in base 256 |
| Frame.FlagBits | whisperv6/message.go:82-84 | which bits of the flags are the length of the size field and the mark of a signature |
| Frame.GetSizeOfPayloadSizeField | whisperv6/message.go:118-124 | the least number of bytes that hold the length |
| Frame.SentMessage.AddPayloadSizeField | whisperv6/message.go:108-115 | below 2^32 bytes, flags announce the field length and the field is the little-endian payload length; from there on the slice fails |
| Frame.SentMessage.AppendPadding | whisperv6/message.go:128-151 | given padding as is, else the computed amount of random bytes; refused if the source fails or they are longer than three and all zero |
| Frame.SentMessage.Sign | whisperv6/message.go:155-171 | performs the signing function: the digest is that of the frame with its flag set, and a flagged frame is left alone; a failure leaves the frame as it was |
| Frame.NewSentMessage | whisperv6/message.go:95-105 | for every payload: fails exactly from 2^32 bytes on, else the frame of payload and padding; given padding always succeeds, generated padding exactly when it is not refused, and it rounds the finished frame to a multiple of 256 |
| Frame.ParseExact | whisperv6/message.go:303-339 | the parser accepts exactly the byte strings of the frame layout and returns their only split |
| Frame.ReceivedMessage.ValidateAndParse | whisperv6/message.go:303-339 | stays in range on every input and fills the fields as the parser function says |
| Frame.ReceivedMessage.ExtractFields | whisperv6/message.go:321-338 | size field, payload and padding before the signature |
| Frame.UnsignedRoundTripExact | whisperv6/message.go:95-151 | an unsigned frame reads back exactly when the payload is shorter than 2^24 bytes |
| Frame.SignedRoundTripExact | whisperv6/message.go:155-361 | a signed frame reads back with payload, padding, signature and the signer's key exactly when the payload is shorter than 2^24 bytes |
| Frame.SendAndReceive | whisperv6/message.go:95-361 | for payloads shorter than 2^24 bytes, building, signing and parsing through the objects gives payload, padding and signer |
| Gate.TimeGateExact | whisperv6/whisper.go:1214-1237 | 32-bit outcomes equal the unbounded rule except for two named families |
| Gate.ClockRangeExact | whisperv6/whisper.go:1214-1237 | no envelope at all is misjudged exactly for clocks from 9 to 2^32-20 |
| Gate.AdmittedLifetime | whisperv6/whisper.go:1214-1237 | at any clock, an admitted envelope expires no earlier than now and no later than now plus ten seconds plus its lifetime |
| Gate.Check | whisperv6/whisper.go:1213-1263 | with byte loops for the topic, the verdict of the rule on sets: time, size, work (computed anew under a penalty, otherwise as stored before) and topic in this order, each of the last two required or tolerated |
| Gate.VerdictExact | whisperv6/whisper.go:1213-1263 | every verdict by conditions on clock, envelope and settings: the ten and twenty seconds with their wrap-around families, 20 bytes plus data against the limit, two to the zero bits against the lower of the two work values (0.2 if unset) times length times lifetime unless a stored value decides, the topic within one of the filters |
| Pool.InsertKeepsIndex | whisperv6/whisper.go:1267-1278 | insertion keeps pool and expiry index in agreement |
| Pool.InsertGrows | whisperv6/whisper.go:1267-1278 | a miss adds the envelope's size to the pool's total |
| Pool.StaleExact | whisperv6/whisper.go:1401-1404 | the digests in stale buckets are those of envelopes past their expiry |
| Pool.ExpireKeepsIndex | whisperv6/whisper.go:1393-1421 | a cycle never meets a missing envelope, keeps the index, removes exactly the envelopes past expiry |
| Pool.ExpireBalances | whisperv6/whisper.go:1404-1416 | the memory count falls by what the pool loses, as much is reported cleared, and the cycle is counted |
| Pool.Whisper.constructor | whisperv6/whisper.go:123-135 | an empty pool with an empty index |
| Pool.Whisper.InsertLocked | whisperv6/whisper.go:1267-1278 | the object performs the insertion function and keeps the index |
| Pool.Whisper.AccountMemory | whisperv6/whisper.go:1287-1289 | adds the size to the memory count and changes nothing else |
| Pool.Whisper.Add | whisperv6/whisper.go:1213-1301 | rejected envelopes change nothing; a hit changes nothing; a miss inserts and accounts; an envelope enters the pool only if it is in time, small, worth enough and wanted |
| Pool.Whisper.ExpireCycle | whisperv6/whisper.go:1393-1421 | the two loops perform the expiry function and announce each removed digest once |
| Pool.Whisper.ClearBucket | whisperv6/whisper.go:1404-1417 | one bucket: removed, counted, announced |
| Pool.Whisper.Remove | whisperv6/whisper.go:1405-1414 | one envelope: removed and counted |
| Pool.Whisper.Envelopes | whisperv6/whisper.go:1432-1441 | every pooled envelope, each once |
| Pool.Whisper.IsEnvelopeCached | whisperv6/whisper.go:1444-1450 | membership in the pool |
| Interleaving.StepSound | whisperv6/whisper.go:1267-1278 | every step keeps the index and none fails |
| Interleaving.StepBalances | whisperv6/whisper.go:1287-1289 | every step keeps memory count plus unaccounted sizes equal to the pool's size |
| Interleaving.StepInsertions | whisperv6/whisper.go:1393-1421 | every step keeps insertions equal to announcements plus pooled digests, digest by digest |
| Interleaving.StepLedger | whisperv6/whisper.go:1280-1301 | every step keeps the histories of insertions and postings exact |
| Interleaving.RunInvariant | whisperv6/whisper.go:1213-1421 | all invariants hold in every run |
| Interleaving.PoolAndIndexAgree | whisperv6/whisper.go:1267-1289 | in every run each pooled digest is in exactly the bucket of its expiry, no cycle fails, and memory balances with what is not yet accounted |
| Interleaving.CountersConserved | whisperv6/whisper.go:1280-1289 | in every run cleared plus pooled equals the cache misses counted plus the insertions whose miss is about to be counted |
| Interleaving.OnePostPerInsertion | whisperv6/whisper.go:1267-1316 | in every run the queues list exactly the calls that finished with a miss, once, by their kind; a digest is inserted again only after it was announced expired |
| Interleaving.GoneAfterLifetime | whisperv6/whisper.go:1393-1420 | in every run a cycle removes and announces exactly what is past its expiry, counting envelopes and bytes; what it leaves passed the checks of some call of the run no longer ago than lifetime plus ten seconds |
| Interleaving.InsertedOnce | whisperv6/whisper.go:1228-1278 | if the clock does not go back, a digest has one expiry and no call inserts it after that, it is inserted at most once, in every interleaving and whatever other digests do |
| Interleaving.AtomicIsPrompt | whisperv6/whisper.go:1213-1278 | calls that insert it without interruption are of this kind |
| Calls.PostedExactly | whisperv6/whisper.go:1267-1316 | in every run a call is in a queue, once, exactly if its begin named that kind and passed the checks, its lock missed the pool, and counter, statistics and post followed in this order, whatever fell between |
| Calls.InsertedExactly | whisperv6/whisper.go:1267-1278 | and it inserts exactly if it came as far as that lock |
| Calls.TraceEffects | whisperv6/whisper.go:1267-1290 | the lock pools the envelope of the begin, the counter grows by one, the memory by its size, the queue by the call |
| Calls.NothingDone | whisperv6/whisper.go:1213-1282 | a call whose checks fail or whose lock finds the digest pooled neither inserts nor posts |
| Calls.WholeCallAdds | whisperv6/whisper.go:1213-1301 | uninterrupted, the steps do to the pool what `Pool.Whisper.Add` does, and post once exactly on a miss |
| Resend.NodeRuns | whisperv6/peer.go:155-176 | the node within a run is a run of the pool machine |
| Resend.HistoryRecorded | whisperv6/peer.go:207-214 | the recorded history holds what the pool held after each step |
| Resend.RunInvariant | whisperv6/peer.go:179-240 | a digest broadcast is known, about to be marked, or was missing from the pool since |
| Resend.ResentOnlyAfterAbsence | whisperv6/peer.go:179-240 | in every run, between the snapshots of two broadcasts of a digest the pool lacked it |
| Resend.BroadcastsAtMostInsertions | whisperv6/peer.go:179-240 | in every run a digest is broadcast to the peer at most as often as it was inserted |
| Resend.WholeBroadcast | whisperv6/peer.go:207-240 | uninterrupted, a broadcast sends and marks what the snapshot holds that is wanted and not known |
| Resend.WholeCheck | whisperv6/peer.go:191-203 | uninterrupted, pruning forgets the visited digest exactly if it is not pooled |
| Resend.ObjectChooses | whisperv6/peer.go:207-214 | the peer object selects from a snapshot what the peer of the machine chooses |
| Resend.EachInsertionBroadcast | whisperv6/peer.go:179-240 | every run of the node has an interleaving in which a given digest is broadcast as often as it is inserted |
| Resend.ResendExact | whisperv6/peer.go:179-240 | a run of the node has an interleaving that broadcasts a digest twice exactly when it inserts it twice |
| Resend.NeverResent | whisperv6/peer.go:179-240 | a digest that no call inserts after its expiry is not broadcast twice, whatever falls between the steps and whatever other digests do |
| Resend.NeverResentAtomic | whisperv6/peer.go:179-240 | in particular one that calls of `add` insert without interruption |
| Resend.SlowAddIsResent | whisperv6/whisper.go:1213-1278 | at every clock and for every envelope admitted then, an interrupted call that inserts after expiry lets the digest be broadcast twice |
| Resend.EchoOnlyAfterAbsence | whisperv6/whisper.go:968-970 | a digest received from the peer is broadcast to it from a later snapshot only if the pool lacked it meanwhile, unless the loop was about to forget it when it was received |
| Resend.EchoExact | whisperv6/peer.go:179-214 | a digest that stays pooled from its receipt on can be sent back exactly if the loop was about to forget it |
| Resend.ForgettingHappens | whisperv6/peer.go:191-203 | a run in which it is: the loop found the digest missing, and a slow call inserted it again |
| Resend.StoppedForGood | whisperv6/peer.go:166-170 | after a broadcast that fails nothing is sent to the peer |
| Offers.EffectiveLifetime | whisperv6/whisper.go:1218-1226 | for an admitted envelope, lifetime plus penalty wraps around exactly when the lifetime reaches beyond the expiry, and what then remains |
| Offers.SenderAtMostBest | whisperv6/whisper.go:1213-1226 | no peer that pooled an envelope took it to be worth more than its best worth |
| Offers.BestReached | whisperv6/whisper.go:1213-1226 | some peer could have |
| Offers.OnTimeSuffices | whisperv6/whisper.go:1244-1252 | on time, nothing chosen by a view no lower than the bar falls below the bar |
| Offers.OnTimeNeeds | whisperv6/whisper.go:1244-1252 | on time, if nothing falls below, the bar is less than one part in 2^31-1 above the view; shown with envelopes within any size limit, 256-bit digests and 32-bit lifetimes, at every clock |
| Offers.OnTimeExact | whisperv6/whisper.go:1244-1252 | both directions, for values some envelope tells apart |
| Offers.LongestIsLongest | whisperv6/envelope.go:52-60 | which envelope of lifetime zero that fits the limit has the longest hashed encoding |
| Offers.LateNeeds | whisperv6/whisper.go:1218-1252 | behind the moment of sending, if nothing falls below, the bar is at most what that envelope is worth under the penalty, whatever the view |
| Offers.LateSuffices | whisperv6/whisper.go:1218-1252 | and that is enough if the view is one plus the penalty times the bar |
| Offers.LateExact | whisperv6/whisper.go:1218-1252 | both directions, for views not lower than that worth times one plus the penalty |
| Exchange.RequirementsFollow | whisperv6/whisper.go:290-326 | in every schedule the last value set is enforced, the peer sees the last it heard of and the rest are on their way in order, and the last whose timer ran out is tolerated, the other timers running in order |
| Exchange.EveryReceiptAccounted | whisperv6/whisper.go:948-970 | in every schedule each envelope sent is on its way or was received once, chosen by the views at its sending and judged by the requirements at its arrival |
| Exchange.Host.constructor | whisperv6/whisper.go:118-140 | the settings show the first requirements, unset ones as their defaults |
| Exchange.Host.SetMinimumPoW | whisperv6/whisper.go:311-326 | refuses negative values; otherwise the settings follow the step of the machine |
| Exchange.Host.SetBloomFilter | whisperv6/whisper.go:290-308 | refuses other sizes; otherwise the settings follow the step of the machine |
| Exchange.Host.StorePoWTolerance | whisperv6/whisper.go:319-323 | the settings follow the timer step |
| Exchange.Host.StoreBloomTolerance | whisperv6/whisper.go:301-305 | the settings follow the timer step |
| Exchange.TopicsExact | whisperv6/whisper.go:1254-1263 | every topic the peer goes by passes one of two filters exactly when no two positions it asks for, equal or in different bytes, are missing one from each |
| Exchange.ReceiptExact | whisperv6/whisper.go:1244-1263 | at one receipt, whatever the clock, no envelope the peer could have chosen is turned down exactly when its condition on views, requirements and tolerances holds |
| Exchange.ScheduleExact | whisperv6/whisper.go:290-326 | for every schedule, with overlapping changes and any delays, no choice of envelopes is turned down exactly when every receipt meets that condition |
| Exchange.ScheduleInNumbers | whisperv6/whisper.go:1244-1263 | the same in numbers: on time the lower work value is at most the view, behind it is at most the worth of the longest envelope of lifetime zero, and the topics are covered |
| Exchange.PoWSteps | whisperv6/whisper.go:311-326 | changing, announcing and storing the work requirement keeps the invariant of timely schedules |
| Exchange.BloomSteps | whisperv6/whisper.go:290-308 | the same for the topic filter |
| Exchange.BroadcastKeeps | whisperv6/peer.go:207-214 | what the peer sends is chosen by the enforced value or the one before |
| Exchange.ReceiveKeeps | whisperv6/whisper.go:1213-1263 | such an envelope passes all checks of `add` for work and topic |
| Exchange.TimelyInvariant | whisperv6/whisper.go:290-326 | if changes do not overlap, and timers run out after the notice was heard and what was sent before it was received, the peer goes by the enforced value or a tolerated one and every receipt is safe |
| Exchange.SafeExactly | whisperv6/whisper.go:290-326 | all timely schedules are safe exactly when the first tolerated work loses nothing of what the first requirement admits and the first tolerated filter is absent or contains the first filter |
| Exchange.SafeInNumbers | whisperv6/whisper.go:290-326 | in numbers: when the first tolerated work is no greater than the first requirement |
| Exchange.UnsetToleranceExact | whisperv6/whisper.go:203-233 | a node with unset tolerances is safe if its first requirement is at least 0.2, and not safe one part in 2^31-1 or more below |
| Exchange.OverlapRejects | whisperv6/whisper.go:311-326 | for any two values told apart, two changes in one window turn down an envelope the peer was asked for |
| Exchange.SlowClockRejects | whisperv6/whisper.go:1218-1252 | a receiver one to ten seconds behind turns down an envelope without any change |
| Peer.Peer.constructor | whisperv6/peer.go:53-65 | a new peer asks for everything at no work |
| Peer.Peer.SetBloomFilter | whisperv6/peer.go:263-271 | the peer covers what it advertised, empty and absent meaning everything; without the shortcut it holds 64 bytes |
| Peer.Peer.Handshake | whisperv6/peer.go:82-152 | accepts exactly version 6, absent fields or finite non-negative work and filters of 0 or 64 bytes, and not two light clients under restriction; then asks for what was advertised |
| Peer.Peer.HandleBloomUpdate | whisperv6/whisper.go:1027-1039 | accepts exactly 64 bytes and then covers them |
| Peer.Peer.HandlePoWUpdate | whisperv6/whisper.go:1012-1026 | accepts exactly finite non-negative work |
| Peer.Peer.BloomMatch | whisperv6/peer.go:257-261 | with or without the shortcut, the subset test on what was advertised |
| Peer.Peer.Mark | whisperv6/peer.go:180-182 | adds one digest |
| Peer.Peer.Expire | whisperv6/peer.go:191-203 | visits one known digest and drops it exactly if it is not pooled |
| Peer.Peer.Broadcast | whisperv6/peer.go:207-240 | the bundle is exactly the unmarked, sufficiently worked, matching envelopes of the snapshot, in its order; they are marked exactly when delivered |
| Delivery.SharedMessage | whisperv6/filter.go:264-283 | a message opened by one filter matches another exactly when the other would open the same message |
| Delivery.DeliveredIsDue | whisperv6/filter.go:194-230 | decrypting once hands each filter what it would have opened itself, in the given order of visits |
| Delivery.DecryptOnceExact | whisperv6/filter.go:194-283 | in all orders, exactly when the work was computed beforehand or no filter that is due demands work |
| Delivery.DueExact | whisperv6/envelope.go:211-245 | a filter gets a message exactly when route, work and signer are allowed and its key decrypts to a frame; payload, padding, signature and source are those of the frame, topic, lifetime, time of sending and digest those of the envelope, and recipient, key digest and salt those of the key |
| Delivery.SentIsDelivered | whisperv6/filter.go:194-230 | a message made from payload, padding and signer arrives with them at every filter whose key decrypts it, and at a filter that expects a signer exactly if it is that key |
| Filters.BytesToTopic | whisperv6/topic.go:33-42 | the first four bytes, padded with zeros |
| Filters.TopicExact | whisperv6/topic.go:33-42 | every position holds the byte given there, or zero; four bytes give the topic they are |
| Filters.StoredAllExact | whisperv6/filter.go:49-56 | since the last retrieval each digest is kept once, with the first message |
| Filters.StoreRunExact | whisperv6/filter.go:49-68 | after any run of additions and retrievals the store holds the digests added since the last retrieval, each with its first message |
| Filters.Watcher.Trigger | whisperv6/filter.go:242-247 | adds a message unless its digest is stored, and keeps messages under their digests |
| Filters.Watcher.Retrieve | whisperv6/filter.go:59-68 | hands out every stored digest once and empties the store |
| Filters.ExactFindsScan | whisperv6/filter.go:174-183 | an exact index finds what a scan finds, nothing twice |
| Filters.InstallKeepsExact | whisperv6/filter.go:150-162 | installing keeps the index exact |
| Filters.UninstallExactly | whisperv6/filter.go:164-170 | removing keeps it exact if and only if the filter is not installed a second time |
| Filters.LostFilter | whisperv6/filter.go:164-170 | otherwise some topic finds the filter by scan and not by index |
| Filters.RunSound | whisperv6/filter.go:107-170 | in every run the index holds only installed filters, each where it belongs |
| Filters.SoundIsExact | whisperv6/filter.go:174-183 | such an index is exact exactly when it finds for every topic what a scan finds |
| Filters.IndexRefinesScan | whisperv6/filter.go:107-183 | for every run of installs and removals: index and scan agree for every topic after every prefix exactly when no filter is removed while it is installed a second time |
| Filters.FoundExactly | whisperv6/filter.go:107-183 | after any run at all, the index finds exactly the interested filters whose last installation or removal was an installation, none twice |
| Filters.OneAtATimeFinds | whisperv6/filter.go:107-183 | with one installation of each filter at a time, index and scan always agree |
| Filters.Filters.constructor | whisperv6/filter.go:97-104 | an empty index, sound and exact |
| Filters.Filters.Install | whisperv6/filter.go:107-132 | refuses two kinds of keys or a used identifier; otherwise indexes the filter and stores its key digest; a sound or exact index stays so |
| Filters.Filters.AddTopicMatcher | whisperv6/filter.go:150-162 | adds the filter to each of its topics, or to all |
| Filters.Filters.RemoveFromTopicMatchers | whisperv6/filter.go:165-170 | removes the filter from both parts of the index |
| Filters.Filters.Uninstall | whisperv6/filter.go:136-145 | removes by identifier; a sound index stays sound, and an exact one stays exact exactly unless the filter was installed twice |
| Filters.Filters.GetWatchersByTopic | whisperv6/filter.go:174-183 | lists each filter the index finds once; from an exact index, those a scan finds |
| Filters.Filters.Offer | whisperv6/filter.go:201-229 | one turn of the delivery loop is the visit function |
| Filters.Filters.OfferAll | whisperv6/filter.go:201-229 | each store grows by what the loop hands to its filter |
| Filters.Filters.NotifyWatchers | whisperv6/filter.go:194-230 | the filters found are visited once each; other stores are untouched |
| Filters.Filters.NotifyComputed | whisperv6/filter.go:194-230 | with the work computed, the store of each filter found grows exactly by what it would have opened itself, and an exact index finds the interested ones |
| Subscriptions.UpdateBloomFilter | whisperv6/whisper.go:812-825 | the filter grows by exactly the positions of the new topics, and peers are notified only if any is missing |
| Subscriptions.SubscribedExact | whisperv6/whisper.go:802-839 | after every run the node has exactly the subscriptions that some step made and no later step removed |
| Subscriptions.BloomExact | whisperv6/whisper.go:812-825 | and asks for exactly the positions of the filter last set directly and of the subscriptions made since |
| Subscriptions.CoverageExact | whisperv6/whisper.go:802-839 | the node asks for all its topics throughout a run exactly when each directly set filter contains the topics of that moment |
| Subscriptions.GrowthSuffices | whisperv6/whisper.go:290-308 | directly set filters that only grow keep the coverage |
| Subscriptions.SubscribedTopicPasses | whisperv6/whisper.go:1254-1263 | covered, every envelope on a subscribed topic passes the topic gate |
| DirectQueue.PublishedInPeerOrder | whisperv6/whisper.go:1303-1371 | in every run, before the event of an item stand exactly the events of what its peer caused before, in order; items are direct envelopes, completed requests and, in light-client mode, ordinary envelopes |
| DirectQueue.ReceivedExact | whisperv6/whisper.go:1040-1086 | what a peer has had received is what its packets brought |
| DirectQueue.EverythingPublished | whisperv6/whisper.go:1303-1371 | from every run on, the peer's loop and the consumer come to publish all of it, in order |
| MailServer.FailedRoundTrip | whisperv6/mailserver_response.go:33-90 | a failure reads back as its request and message |
| MailServer.CompletedRoundTripExact | whisperv6/mailserver_response.go:23-131 | a completion reads back exactly for cursors of 0 or 36 bytes and requests not beginning with `ERROR=` |
| MailServer.DecodeExact | whisperv6/mailserver_response.go:45-140 | for payloads of every length: which are refused, which are failures, and that request, last envelope and cursor are read from their places or left empty |

## Left out

- RPC interface, JSON codecs and the client: wrappers around the parts modelled here.
- Cryptography, randomness and key stores: only the laws in `Crypto.dfy` are used; symmetric keys of installed filters are taken to have distinct, non-zero digests.
- RLP of anything but envelopes and of data from 2^32 bytes on, sockets, logging, metrics other than the miss counter, tickers: ticks are actions.
- Floating-point rounding of work values: exact rationals are used instead.
- Error codes and disconnection: the type assertion on time-sync errors holds for every error, so nothing is built on it.
- Peer.Peer.Expire: claims no more than one visit per cycle, because the callback stops the iteration after the first digest, although the comment in the source speaks of all.
- Peer.Peer.Handshake: takes the decoded fields of the status packet; sending the node's own packet and reading the stream are not modelled.
- Filters.Filters.NotifyWatchers: each filter owns its store and its topics do not change while it is installed.
- Resend.ResendExact: one peer is modelled; others act on the pool only through additions.
- Exchange.ScheduleInNumbers: says nothing about work values less than one part in 2^31-1 apart, about views above 10^30, or, behind, about views below the stated worth; `Exchange.ScheduleExact` covers these with a condition that quantifies over envelopes.
- Exchange.ScheduleExact: clocks read at least one second after the epoch; notices about work and about topics travel in separate queues, and envelopes may arrive in any order, which allows more schedules than one connection does.
- Exchange.SafeInNumbers: says nothing about work values less than one part in 2^31-1 apart or requirements above 10^30; `Exchange.SafeExactly` covers these.
- Subscriptions.UpdateBloomFilter: reading and storing the node's filter is one step; updates lost between concurrent subscriptions are not modelled.
- Delivery.DecryptOnceExact: takes for granted that at most one key opens a given ciphertext, a law of authenticated encryption that holds only with overwhelming probability.
- Interleaving.RunInvariant: mail-server archiving and the blocking of a full message queue are not modelled; a posting is recorded when it is accepted.
- Rate limiting, the overflow flag and the `Validate` methods of requests: they decide before or beside the parts modelled here and share no state with them.
