# ResolveX in Dafny

ResolveX announces over BGP the addresses of a set of managed domains. It never
computes the union of those addresses. The store counts, for every address, how
many domains hold it, and emits a diff when a count appears or disappears; a queue
carries the diffs; the broadcaster folds them into a table of its own; and each
peer gets the table once and the diffs as octets of BGP UPDATE messages. This
project models the four pieces and proves that all these copies agree.

| file | what it holds |
|---|---|
| `Types.dfy` | addresses, messages, the remove-then-add reading of a message, sorting |
| `StoreSpec.dfy` | what the store operations compute, as functions on values |
| `Counts.dfy`, `Runs.dfy`, `Conservation.dfy` | exact reference counts over every run, Delete and Update, double counting |
| `Batch.dfy`, `BatchLimits.dfy` | the message of a published batch and the exact conditions under which it is right |
| `Refinement.dfy`, `History.dfy` | Publish as a merge of maps, order independence, what a domain holds told from its history |
| `Storage.dfy` | the store as a class: the loops of the program, proved against `StoreSpec` |
| `Packet.dfy`, `Wire.dfy`, `Plugin.dfy` | the UPDATE encoder, a decoder written from RFC 4271, and the peer's view of a message |
| `Broadcast.dfy` | the broadcaster as a class: queues, table, rounds of writers |
| `Resolver.dfy`, `FanIn.dfy` | the collector's merge and the close protocol of the workers |
| `System.dfy` | the whole chain as one step system and the end-to-end theorem |

How the parts of the program appear:

- The clock is a function from checks to instants. A check is a record of the batch,
  one of its two loops and an address; each happens at most once in a batch, so every
  series of readings is covered. Theorems that need one reading per batch, or a clock
  that does not go back, say so.
- The iteration order of a Go map is an arbitrary choice at every turn of the loop. The
  methods of `Storage.Store` are equated with functions, so their results do not depend
  on it.
- The domain cache is a plain map; the program passes no options to it
  (cmd/resolvex/main.go:74), so nothing is evicted.
- A session is the number of a writer. The octets it was sent are kept, and the routes
  of the peer are what decoding and applying them gives. A message of more than 4096
  octets changes no route.
- In the step system a store call that cannot send holds the lock and waits; failed
  writes, repeated registrations and messages that are too long are ordinary steps. For
  each session the model keeps a stale set: the addresses about which it was not told
  the last word. A later message that reaches the session clears what it mentions.

Promises that hold only under a condition; the condition is proved to be exact:

- The message of a batch is right for all stores and all readings that do not go back,
  as the program's do not, if and only if every address of a record that is not the last
  of its domain is carried at least as long by an earlier record that is the last of its
  own (`BatchLimits.MonotoneExactIff`). If the clock may go back, the condition is that
  no domain has an earlier record with addresses at all (`BatchLimits.ExactIffSafe`).
  Batches of distinct domains, the only ones the resolver makes, satisfy both.
- A body can be decoded to what was meant if and only if both sections fit 16 bits and
  every AS path has at most 126 numbers (`Wire.RoundTripIffFits`).
- From a reachable state without a panic, some continuation sends on the closed channel
  if and only if a worker waits at its select, or the channel is open, the context is not
  cancelled, and a worker queries or is still to be spawned (`FanIn.PanicIff`). Once the
  tick has closed the channel nobody panics, cancelled or not (`FanIn.TickCloseIsSafe`).
- A round that is over publishes if and only if no worker returned the context's error,
  which takes a cancellation. If it publishes, every answer was sent, and the batch has the domains and
  addresses of all answers if and only if the results left in the buffer were received from
  elsewhere (`FanIn.PublishedIffRepeated`); the tick can leave any result there
  (`FanIn.TickCanDropResults`).
- If nobody visited before it failed, its own update was written and the message has at most
  810 prefixes, a peer agrees with the table after a round if and only if the message speaks
  of every address on which it differed; otherwise if and only if its routes are those of the
  new table (`System.RoundRepairsIff`). A session just registered agrees if and only if its
  peer was not registered, the table was written and has at most 810 addresses, or the table
  is empty (`System.RegistrationAgreesIff`).
- Three families of runs from the start, given step by step, in which one record is published
  and one peer added: with the peer added before, or after, it ends up informed if and only if
  its one write does not fail and there are at most 810 addresses
  (`System.RoundRunInformsIff`, `System.TableRunInformsIff`); added once more it never is
  (`System.AddedAgainMisinforms`).

## Model

| member | source | states |
|---|---|---|
| System.EndToEnd | internal/broadcast/server.go:86-164 | in every reachable state, under any interleaving and any trouble: folding the queued and blocked messages over the broadcaster's table gives the union of all domains' addresses; each session's decoded routes are host routes that agree with the table outside the stale set; with nothing under way and nothing stale they are exactly that union |
| System.CleanRunsAgree | internal/broadcast/server.go:98-163 | in a run with no failed write, no second registration and no message over 810 prefixes, every registered peer holds the table, and when the queue is empty exactly the union of the addresses of all domains |
| System.CanSettle | internal/broadcast/server.go:86-164 | from every reachable state the runner and a blocked call alone can empty both queues, of messages and of peer actions, with domains and counters unchanged |
| System.EveryInternalRunSettles | internal/broadcast/server.go:86-164 | however they go on, they take at most as many steps as there is backlog in both queues and can stop only when nothing is left to do |
| System.StepKeepsTable | internal/broadcast/caster.go:41-47 | every step keeps the counts exact and keeps the pending messages equal to the difference between table and counters |
| System.StepKeepsPeers | internal/broadcast/server.go:98-163 | every step keeps every registered session in step with the table outside its stale set, for any outcome of any write |
| System.RoundRepairsIff | internal/broadcast/server.go:133-163 | on every enabled round, for every registered peer, right or wrong before: if nobody visited before it failed, its own update was written and the message has at most 810 prefixes, it agrees afterwards exactly when the message speaks of every address on which it differed; otherwise exactly when its routes are those of the new table |
| System.RoundAgreesIff | internal/broadcast/server.go:133-163 | so a peer that agreed with the table agrees afterwards exactly when nobody visited before it failed, its own update was written and the message has at most 810 prefixes, or the message does not change the table |
| System.RegistrationAgreesIff | internal/broadcast/server.go:104-125 | a session just registered agrees exactly when its peer was not registered, its table was written and has at most 810 addresses, or there is nothing announced |
| System.RoundRunInformsIff | internal/broadcast/server.go:133-163 | for all names, peers, unexpired records, table orders and outcomes: adding a peer, publishing a record and running the round is a run from the start that ends with nothing to do and with the peer holding exactly the addresses of the domains if and only if its write in the round does not fail and there are at most 810 addresses |
| System.TableRunInformsIff | internal/broadcast/server.go:104-125 | the same for publishing first and adding the peer once: the write is that of the initial table |
| System.AddedAgainMisinforms | internal/broadcast/server.go:104-112 | that run followed by adding the same peer once more ends with nothing to do and the peer misinformed, whatever becomes of the writes and however few addresses there are |
| System.ReconnectInformsIff | internal/bgp/plugin.go:141-145 | a run from the start with two peers: one is removed and added again with a new session; it ends informed exactly when its new table is written and there are at most 810 addresses, and the other peer keeps what it had |
| System.EveryMessageDecodes | internal/bgp/plugin.go:66-136 | in every reachable state, whatever was written to any session and fits one message decodes; neither queue holds more than ten entries |
| System.FirstOctets | internal/bgp/plugin.go:66-136 | the octets a first session gets when nothing is held: an update without routes and two end-of-RIB markers; no other session gets any |
| System.WhoWaits | internal/broadcast/caster.go:41-47 | a store call waits exactly while another is blocked, a blocked call and calls about peers exactly while ten entries wait, and the runner can take from either queue that has any |
| Runs.RunKeepsCounts | internal/storage/api.go:27-169 | after any run of New, Create, Delete, Update and Publish, with any batches and clock readings, each counter is the number of domains holding the address, exists only if that is at least one, and validate finds nothing |
| Runs.SentIsExact | internal/storage/api.go:66-93 | what an operation sends turns the addresses announced before it into those announced after it |
| Runs.DeleteWithdrawsSoleHoldings | internal/storage/api.go:53-100 | Delete withdraws, in increasing order, exactly the addresses no other domain holds, and the union of the other domains stays announced |
| Runs.ErrorsExactly | internal/storage/api.go:27-130 | which operations of a run fail, with which error, and that a failed one changes and sends nothing |
| Runs.CreateInRuns | internal/storage/api.go:27-50 | creating in a run adds the name empty and due, or changes nothing |
| Runs.DeleteInRuns | internal/storage/api.go:53-100 | deleting in a run removes the name alone and withdraws exactly what it alone held |
| Runs.UpdateInRuns | internal/storage/api.go:105-169 | renaming old to new in a run: the old name is gone, the new one empty and due, the others unchanged, and exactly what the old one alone held is withdrawn, with the cause of an update |
| Runs.PublishInRuns | internal/storage/dns.go:60-143 | publishing distinct domains in a run merges each record under its reading, with its expiry, and leaves the other domains |
| Runs.UpdateIsDeleteThenCreate | internal/storage/api.go:105-169 | read off the specification that Storage.Store.Update is proved against: renaming succeeds exactly when the old name exists and the new one does not, and equals Delete then Create but for the cause of the message |
| Runs.CreateAddsEmptyDomain | internal/storage/api.go:27-50 | read off the specification of Storage.Store.Create: it succeeds exactly for an absent domain, which starts empty and due for resolving; nothing else changes |
| Counts.WriteKeepsCounts | internal/storage/dns.go:76-118 | storing a record keeps the counts exact, changes the announced set by exactly what enters the message, and withdraws only what this domain alone held |
| Counts.BatchKeepsCounts | internal/storage/dns.go:66-129 | counts are exact after every record of any batch under any clock readings |
| Counts.WithoutKeepsCounts | internal/storage/api.go:66-79 | letting go of a domain keeps the counts exact, never meets a missing counter, and withdraws exactly what no other domain holds |
| Counts.CountedIsConsistent | internal/storage/store.go:95-120 | exact counts are positive and pass the consistency check |
| Conservation.RunConserves | internal/storage/dns.go:92-117 | in every reachable state the counters add up to the sizes of all address maps |
| Batch.CalmBatchIsExact | internal/storage/dns.go:66-138 | for any store with exact counts: if whatever a non-final record brings fresh was brought fresh by an earlier final record, the announced set after the batch is the one before it, minus the withdrawals, plus the additions |
| Batch.SafeBatchIsExact | internal/storage/dns.go:66-138 | so it is for any clock readings when only the last record of a domain has addresses, even when one record drops an address and a later one brings it back |
| Batch.MessageShape | internal/storage/dns.go:87-138 | a safe batch sends at most one message; its lists are strictly increasing without repetition; withdrawals were announced before, additions are announced after, and an addition announced before is also withdrawn |
| BatchLimits.MonotoneExactIff | internal/storage/dns.go:60-143 | the broadcast diff is right for all counted stores and all readings that do not go back if and only if every address of a record that is not the last of its domain is carried at least as long by an earlier record that is the last of its own |
| BatchLimits.MonotoneUnsafeFails | internal/storage/dns.go:66-138 | otherwise, on the empty store, a clock that stands still and then jumps makes Publish announce an address nobody holds |
| BatchLimits.UnsafeBatchFails | internal/storage/dns.go:66-138 | if an earlier record of a repeated domain carries an address, a clock that may go back makes Publish announce, on the empty store, an address nobody holds |
| BatchLimits.ExactIffSafe | internal/storage/dns.go:60-143 | the broadcast diff is right for all counted stores and all readings, including those of a clock that goes back, if and only if no domain has an earlier record with addresses |
| BatchLimits.DistinctIsSafe | internal/resolver/config.go:154-207 | batches of distinct domains satisfy that condition |
| BatchLimits.ConditionsDiffer | internal/storage/dns.go:66-138 | a batch that only a clock going back can spoil |
| Refinement.StoredIsMerge | internal/storage/dns.go:74-127 | with one clock reading, the two loops store the unexpired part of the old map overridden by the unexpired part of the record |
| Refinement.PublishIsMerge | internal/storage/dns.go:66-129 | so does a whole batch of distinct domains, and other domains are untouched |
| Refinement.OrderDoesNotMatter | internal/storage/dns.go:66-138 | a permutation of a batch of distinct domains gives the same domains and counters and a message of the same effect |
| History.RunRecalls | internal/storage/dns.go:74-127 | in every run with one reading per batch and a clock that does not go back, a domain holds an address exactly when the last publish since it started that carried it unexpired gave it an expiry beyond the last publish of all, and with that expiry |
| StoreSpec.InitialIsEmpty | internal/storage/store.go:82-84 | the initial store has exactly the given names, each empty and due, and no counters |
| Types.SortedUnique | internal/storage/dns.go:135-136 | a sorted list is determined by its elements, so the message does not show the iteration order |
| Storage.Store.constructor | internal/storage/store.go:63-93 | New starts with the given domains, each empty, and no counters |
| Storage.Store.MergeFresh | internal/storage/dns.go:74-93 | the first loop, in any order: the fresh addresses, those known before, the counters, the additions |
| Storage.Store.ExpirePrior | internal/storage/dns.go:101-118 | the second loop, in any order: the new map of the domain, the counters, the withdrawals |
| Storage.Store.Refresh | internal/storage/dns.go:68-128 | one record takes store and message from one specified state to the next, and the item lists every held address once |
| Storage.Store.Publish | internal/storage/dns.go:60-143 | the store and the broadcast message are those of the specification for every iteration order and every clock |
| Storage.Store.Create | internal/storage/api.go:27-50 | ErrExist and no change exactly if the domain exists, otherwise the specified store |
| Storage.Store.Delete | internal/storage/api.go:53-100 | ErrNotFound and no change exactly if the domain is absent, otherwise the specified store and message |
| Storage.Store.Update | internal/storage/api.go:105-169 | all or nothing: ErrExist exactly if the new name exists, else ErrNotFound exactly if the old one does not, and then neither store nor queue changes; the second look for the new name never finds it |
| Storage.Store.Release | internal/storage/api.go:66-79 | the release loop, in any order: the counters and the addresses to withdraw |
| Storage.Store.GetIPList | internal/storage/bgp.go:10-21 | every address with a positive counter, each once |
| Storage.Store.GetDomains | internal/storage/dns.go:30-42 | every domain, or every domain whose expiry is not in the future, each once |
| Storage.Store.Validate | internal/storage/store.go:95-120 | no error if and only if the addresses with positive counters are the addresses of all items, whatever the iteration order |
| Broadcast.Server.UpdateList | internal/broadcast/server.go:168-206 | the list without repetition of the table minus the withdrawals plus the additions; the same list for an empty message |
| Broadcast.Server.TakeAction | internal/broadcast/server.go:98-131 | the runner's handling of a peer action, including the initial table, the silent second registration and the removal |
| Broadcast.RemovalEffect | internal/broadcast/server.go:126-128 | removing a peer ends its registration; every other registration, the table and all logs stay |
| Broadcast.AdditionEffect | internal/broadcast/server.go:100-124 | adding a peer registers its session and leaves the others; a new peer's session alone gains the table and the marker as far as the writes go, a registered one gains nothing |
| Broadcast.Server.TakeMessage | internal/broadcast/server.go:133-163 | the runner's handling of a message: new table, then one round over all peers in some order |
| Broadcast.Server.SendToPeers | internal/broadcast/server.go:150-162 | one round is the specified round for some order of the peers, whoever fails |
| Broadcast.RoundWrites | internal/broadcast/server.go:150-162 | a peer is written to exactly when nobody visited before it failed; what each session's log gains is given for every outcome |
| Broadcast.Server.Broadcast | internal/broadcast/caster.go:41-47 | the message is appended to the queue unless the server is closed |
| Broadcast.Server.AddPeer | internal/broadcast/manager.go:27-33 | the action is appended to the second queue unless the server is closed |
| Broadcast.Server.DelPeer | internal/broadcast/manager.go:18-24 | likewise for removal |
| Packet.EncodePrefix | internal/bgp/packet.go:184-196 | mask length and the least number of octets, or an error exactly for an address that is not IPv4 |
| Packet.PrefixIsLeast | internal/bgp/packet.go:184-196 | a prefix is its mask length, zero for an irregular mask, and the least number of leading octets that covers it |
| Packet.ASPathLayout | internal/bgp/packet.go:68-94 | flags, type, truncated lengths, segment kind and every number's two octets, spelled out |
| Packet.EncodeASPath | internal/bgp/packet.go:68-94 | the octets of the attribute with its truncated lengths |
| Packet.BuildUpdateMessage | internal/bgp/packet.go:136-179 | an error exactly when some address is not IPv4, otherwise the octets of the body with its truncated section lengths |
| Wire.RoundTripIffFits | internal/bgp/packet.go:136-196 | decoding by section 4.3 of RFC 4271 gives back the withdrawn prefixes, the attributes and the announced prefixes in order, if and only if both sections fit 16 bits and every AS path has at most 126 numbers |
| Wire.PathAloneIffShort | internal/bgp/packet.go:68-94 | an AS path alone comes back if and only if it has at most 126 numbers |
| Wire.MeaningUnique | internal/bgp/packet.go:39-128 | a decoded attribute means one attribute only, up to the two forms of an IPv4 address |
| Plugin.EncodeMessage | internal/bgp/plugin.go:66-108 | the loops over additions and withdrawals make /32 prefixes and never fail to encode |
| Plugin.AttributeSection | internal/bgp/plugin.go:88-93 | the 21 octets of the four attributes |
| Plugin.OneEachLiterally | internal/bgp/plugin.go:66-108 | all octets of a message with one withdrawal and one addition, from the numbers of the dotted addresses |
| Plugin.BodySize | internal/bgp/plugin.go:66-108 | the body has 25 octets and 5 for each address; with the header it meets the 4096-octet limit if and only if there are at most 810 addresses |
| Plugin.PeerFollows | internal/bgp/plugin.go:66-108 | what a received message does to any route, host route or not |
| Plugin.PeerRefinesUpdateList | internal/broadcast/server.go:168-206 | a peer that decodes and applies the octets changes its host routes exactly as updateList changes the table |
| Plugin.EndOfRibChangesNothing | internal/bgp/packet.go:53-65 | the end-of-RIB marker is four zero octets, the body without prefixes and attributes; it decodes to an empty update and changes no route |
| Resolver.Collector.Receive | internal/resolver/config.go:174-196 | the map is the merge of everything received so far |
| Resolver.Collector.Items | internal/resolver/config.go:207 | the published batch has one record per domain, in any order, so its message can be trusted |
| Resolver.CollectorMerges | internal/resolver/config.go:174-196 | for any results in any order: one entry per domain seen, the union of its addresses, and for each the expiry of the latest result carrying it |
| Resolver.FirstResultDecidesExpiry | internal/resolver/config.go:180-186 | the expiry of an entry comes from the first result for its domain |
| Resolver.ArrivalOrder | internal/resolver/config.go:174-196 | the same results in another order, received at any other instants, give the same domains with the same addresses |
| Resolver.LastCarrierDecidesExpiry | internal/resolver/config.go:178-195 | when the clock does not go back, an address expires an hour after the last result that carried it |
| Resolver.SameReceipts | internal/resolver/config.go:174-196 | results received at the same instants in another order give the same expiries too |
| FanIn.CloseIsSafe | internal/resolver/config.go:67-173 | in every run the counter is the number of unfinished workers, sent results are received or buffered in order, and without cancellation a closed channel means that every worker has finished |
| FanIn.TickCloseIsSafe | internal/resolver/config.go:166-173 | once the tick has closed the channel, in every state of the rest of the run all workers have finished and nobody has panicked, cancelled or not |
| FanIn.PanicIff | internal/resolver/config.go:67-173 | in every reachable state without a panic: some continuation sends on the closed channel if and only if a worker waits at the select, or the channel is open, the context is not cancelled, and a worker queries or is still to be spawned |
| FanIn.ClosedPanicsIffSending | internal/resolver/config.go:109-114 | on a closed channel some next step panics exactly when a worker waits to send |
| FanIn.NobodyStartsSending | internal/resolver/config.go:101-114 | after a cancellation whoever waits to send was waiting with the same result when it happened |
| FanIn.CollectedIffRepeated | internal/resolver/config.go:154-201 | in every run the collected domains and addresses are those of everything sent if and only if what stayed in the buffer was received from elsewhere, so whenever the buffer is empty |
| FanIn.PublishedIffRepeated | internal/resolver/config.go:64-207 | when a round is over it publishes exactly if no step of the run is a worker returning the context's error; if it publishes, every answer was sent exactly once, and the batch has the domains and addresses of all answers if and only if what stayed in the buffer was received from elsewhere |
| FanIn.EveryResultCanBePublished | internal/resolver/config.go:154-207 | for any workers and one result for each: a round that receives and publishes all of them, closed by the tick of an uncancelled or a cancelled round, or by the end of the cancelled context |
| FanIn.EveryResultCanBeDropped | internal/resolver/config.go:166-173 | with at most 1000 workers: an uncancelled round that sends all their results and publishes none |
| FanIn.RoundCanEnd | internal/resolver/config.go:67-205 | from every reachable state without a panic the round can end, and end without publishing as long as some worker has yet to be spawned or to answer |
| FanIn.RoundCanEndWell | internal/resolver/config.go:67-205 | from every reachable open and uncancelled state the round can end uncancelled with an empty buffer |
| FanIn.CancelCanPanic | internal/resolver/config.go:109-165 | a round has a run that sends on the closed channel if and only if it has a worker |
| FanIn.TickCanDropResults | internal/resolver/config.go:166-173 | for any workers, any one of them and any result for its domain: an uncancelled run that sends this result and closes without merging it |

## Left out

- HTTP API, UI, JSON, configuration, logging, the text of errors and the wiring of services.
- The fetching and the validation of domain names.
- Real DNS exchanges: a worker's answer is any result for its domain.
- Real sockets, corebgp's sessions and message header: the outcome of a write is arbitrary.
- Capability negotiation and the four-octet AS numbers it offers: AS paths are decoded with the two-octet numbers the encoder writes, and the path sent is empty.
- The recreation of a peer after its session closes; adding and removing peers in any order is covered by steps.
- Shutdown: after closing, queues only refuse; the step system describes runs before it.
- The cache's own eviction and size options.
- The text of addresses: an address is its 32-bit value, its order stands for the order of the text, and ParseIP gives the sixteen-octet form. Masks are given by their number of leading ones, or as irregular.
- The lazy iterator of List, which reads the cache after the lock is released; store calls are atomic up to a blocked send.
- Integer widths of the counters: the number of domains and workers is taken to fit.
- The log line that follows a failed consistency check: the check is made and its result dropped, as the program does.
- Broadcast.Server.Broadcast: does not model blocking on a full queue; the step system does.
- Broadcast.Server.AddPeer: does not model blocking on a full action queue; the step system makes the caller wait.
- Broadcast.Server.DelPeer: does not model blocking on a full action queue; the step system makes the caller wait.
- The endless select loop of the runner as a method: one turn is a method, and the step system chooses between the two queues.
- Packet.EncodePrefix: does not model masks of more than 32 ones, for which the program's slice of the four octets is out of range.
- A peer that receives a message longer than 4096 octets should also close the session; here it only ignores the message.
