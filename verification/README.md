# cfd, modelled and verified in Dafny

`cfd` is a small Cloudflare tunnel client: packets read from a TUN device are routed by a
longest-prefix-match trie, sent as QUIC datagrams over four supervised connections, and registered
through a Cap'n Proto stream. This project models its hard parts and proves what they are meant to
keep. `dafny verify dfyconfig.toml` checks everything.

| file | what it models |
|---|---|
| `BitOps.dfy`, `CString.dfy`, `Wrappers.dfy` | C shifts and masks on naturals, C strings, optional values |
| `Address.dfy` | addresses, CIDR prefixes, `Cidr::contains`, the prefix-length loop of `Cidr::parse` |
| `LpmTrie.dfy` (module `Lpm`) | the trie as a heap of nodes, against a linear scan of all insertions |
| `Router.dfy` | the reader loop, against a filter of the packets read |
| `Atomics.dfy` | the 8-byte atomics over a spinlock, as interleaved threads with torn copies, and their linearizability |
| `AsyncStream.dfy` | the receive queue of `MsquicAsyncStream`, and its callbacks against one reader |
| `SendContexts.dfy` | datagram and stream-write contexts that cross the C boundary |
| `QuicHandles.dfy` | the counted API table and the nested handles of any number of clients, with every call free to fail |
| `ConnectionUse.dfy` | calls on a client's connection from the router's and the worker's threads, beside the client's own calls |
| `QuicClient.dfy` | `connect`, `close` and the destructor as methods on the fields, tied to `QuicHandles` |
| `Disconnect.dfy` | the handshake and disconnect flags |
| `HandlerLifetime.dfy` | the lifetime of the disconnect handler, across threads |
| `Supervisor.dfy` | the reconnect threads, the registration worker and the ordered shutdown |
| `SupervisorShutdown.dfy` | that this shutdown neither deadlocks nor goes on for ever |
| `SupervisorHistory.dfy` | where each thread is, who is healthy and how long a thread sleeps, told from the events of a run |
| `RoundRobin.dfy` | the sink that deals packets to the connections |
| `Base64.dfy`, `Base64Numbers.dfy`, `Uuid.dfy` | the two text decoders, against an encoder, a change of number base, and a printer |
| `Netlink.dfy`, `NetlinkClient.dfy` | the attribute builder on a byte buffer and the client's requests, against a reader that walks the attributes |

Conventions. A class stands where the source has an object it updates, with methods proved against
functions of the old state. What several threads do is a transition system: `System`, `Event`,
`Enabled`, `Next` (or one predicate per step), an invariant `Inv`, and a lemma that carries it along every run. Misuse is
recorded in the state (`fault`, `late`), and a theorem says that no run reaches it, or exactly when one does. msquic, poll, DNS, timers and the
network are arbitrary outcomes: parameters of an event, or scripts that are quantified over.
Integers are unbounded, and every truncation of the source is written out.

Findings about the code:

- `connect` twice in a row, without the `close` that the supervisor always puts between, closes a
  registration under its configuration: `QuicHandles.ReconnectWithoutClose` gives the exact condition
  and `QuicHandles.TwoConnects` shows it from the empty library.
- `send_packet` and `register_connection` use the connection from other threads without a lock that
  `close` takes. Such a call is on no handle or on a dead one exactly when the field was empty as it
  was read, or `close` has closed the connection since: `ConnectionUse.LateExactlyIfClosed`.
- Both `close_mu_` and the draining ConnectionClose are needed for the disconnect handler not to
  outlive its thread: `HandlerLifetime.LateExactlyWithoutASafeguard`.
- Round-robin dealing stays balanced across the wrap of its counter exactly because 4 divides
  the number of values of a `size_t`: `RoundRobin.BalancedIffDivides`.
- `nla_put` writes a 16-bit `rta_len`; an attribute is read back exactly when its length fits
  (`Netlink.AppendedIsRead`), which the 4096-byte scratch buffer always ensures.
- The header comment of `lpm_trie.hpp` says that nodes are owned by `std::unique_ptr`; the code
  releases them to raw pointers and frees them in `destroy`. The model follows the code.

## Model

| member | source | states |
|---|---|---|
| Address.MaskAgrees | src/net/cidr.cpp:68-74 | Comparing two bytes under the truncated, shifted mask is comparing exactly their leading bits |
| Address.MaskedEqual | src/net/cidr.cpp:72-75 | The masked comparison of the remainder byte holds exactly when the leading bits agree |
| Address.PrefixByBytes | src/net/cidr.cpp:67-75 | Agreement of prefixes bit by bit is agreement of whole bytes plus the leading bits of the next byte |
| Address.Contains | src/net/cidr.cpp:65-77 | True exactly when the families are equal and the first prefix_len bits are equal |
| Address.ParsePrefixLen | src/net/cidr.cpp:43-54 | Accepts exactly digit strings (the empty one too) whose decimal value is at most 32 for V4 and 128 for V6, and returns that value; longer texts cannot overflow |
| Address.DecimalExamples | src/net/cidr.cpp:46-46 | Decimal means base ten, most significant digit first |
| Address.BitWeights | include/cfd/lpm_trie.hpp:58-60 | The bits that the trie reads are the binary digits of the byte, bit 0 the most significant |
| Lpm.ScanIsLongestMatch | include/cfd/lpm_trie.hpp:33-43 | The linear scan means longest match: the hit is the most recent of the longest covering insertions, none only if nothing covers |
| Lpm.CoversIsOnPath | include/cfd/lpm_trie.hpp:58-60 | A CIDR covers an address exactly when its trie path is a prefix of the address's path |
| Lpm.BestBelowIsScan | include/cfd/lpm_trie.hpp:37-41 | Remembering the last value seen down the bits equals the linear scan over all insertions |
| Lpm.InsertsCommuteOrReplace | include/cfd/lpm_trie.hpp:29-30 | The order of two insertions changes an answer only if they are the same prefix, host bits aside; then the later one replaces the earlier one altogether |
| Lpm.LpmTrie.OneNodePerPath | include/cfd/lpm_trie.hpp:51-56 | No node hangs at two paths, and no path is longer than 32 steps for V4 and 128 for V6: subtrees and families are disjoint, at most 33 or 129 levels |
| Lpm.LpmTrie.Attach | include/cfd/lpm_trie.hpp:24-24 | A node allocated into an empty slot extends the tree by that one path and disturbs no stored value |
| Lpm.LpmTrie.Descend | include/cfd/lpm_trie.hpp:22-27 | The moving slot ends at the prefix's path; at most prefix_len nodes are allocated, all on that path, and nothing stored changes |
| Lpm.LpmTrie.Insert | include/cfd/lpm_trie.hpp:21-31 | The trie stores one more insertion; at most prefix_len + 1 nodes are allocated, all on its path; the heap is still a tree per family; no lookup of an address that the prefix does not cover changes, so none in the other family |
| Lpm.LpmTrie.Lookup | include/cfd/lpm_trie.hpp:33-43 | None exactly if no insertion covers the address; otherwise the value of the longest, and among those the most recent, insertion that does; also the answer of the linear scan |
| Lpm.LpmTrie.Delete | include/cfd/lpm_trie.hpp:70-71 | Freeing a childless node takes exactly it out of the tree; a node already freed cannot be freed again |
| Lpm.LpmTrie.Destroy | include/cfd/lpm_trie.hpp:66-72 | Frees exactly the subtree of the slot, each node once and none before a node below it, and nulls the slot; terminates |
| Lpm.LpmTrie.DestroyAll | include/cfd/lpm_trie.hpp:45-48 | Every allocated node is freed exactly once, children before their parents, and both roots are null |
| Router.Router.AddRoute | src/router/router.cpp:44-47 | The route is appended to the insertions that lookups scan |
| Router.DstFromPacket | src/router/router.cpp:18-35 | Succeeds exactly on packets that start with some IPv4 or IPv6 header, built field by field, and returns that header's destination whatever its other fields |
| Router.Router.Dispatch | src/router/router.cpp:113-120 | The sink gets the packet exactly when it starts with a header whose destination has ToTunnel as the action of its longest, most recent match |
| Router.Router.OneTurn | src/router/router.cpp:92-121 | One poll ends the loop exactly in the listed cases, and otherwise hands over at most the one packet read |
| Router.Router.TunReaderLoop | src/router/router.cpp:90-122 | For every script of polls, reads and stops the sink is given exactly the packets read before exit whose header's destination is routed to the tunnel, in order and unchanged |
| Router.IdleTurnsDoNotMatter | src/router/router.cpp:100-109 | Timeouts, EINTR and EAGAIN may be put in anywhere without changing what is read |
| Router.ExitTurnsEndIt | src/router/router.cpp:92-111 | A stop, the wake pipe, a failed poll or read, or an empty read ends the loop wherever it stands |
| Router.PacketTurnsCount | src/router/router.cpp:107-107 | Any other read before the exit adds its packet, cut to 1500 bytes |
| Router.SelectionJoins | src/router/router.cpp:116-120 | The selection goes packet by packet, in order |
| Atomics.StepMatches | cmake/stubs/atomic_mips32.c:22-74 | Each half-word copy, lock attempt, computation and return is matched by the atomic object, with the same visible label |
| Atomics.ReleaseMatches | cmake/stubs/atomic_mips32.c:34-37 | The operation takes effect as one atomic step when the lock is released |
| Atomics.Simulate | cmake/stubs/atomic_mips32.c:22-74 | Every run of any number of threads is a run of the atomic object, label for label |
| Atomics.LegalEffect | cmake/stubs/atomic_mips32.c:39-74 | The meaning of each operation in full: a compare-and-swap returns what it finds and stores the new value exactly if that is the expected one; the additions store the sum modulo 2^64 and return the value before or after; other cells stay |
| Atomics.Linearizable | cmake/stubs/atomic_mips32.c:22-74 | At most one thread is inside; the effects so far, each with the meaning of its operation written out, lead from the first memory through a sequential history to the present one whenever the lock is free |
| Atomics.EffectBetweenCallAndReturn | cmake/stubs/atomic_mips32.c:39-74 | An operation's effect lies between its call and its return |
| Atomics.NoAdditionIsLost | cmake/stubs/atomic_mips32.c:52-74 | After any run of the stubs, once all threads are idle, a cell on which no compare-and-swap was called holds its first value plus the sum of what all calls added, modulo 2^64 |
| Atomics.AtMostOneSwapWins | cmake/stubs/atomic_mips32.c:39-50 | Of any number of concurrent calls that all try to replace the same value of a cell, with no other call on it, at most one returns that value |
| AsyncStream.MsquicAsyncStream.TakeFromFront | src/tunnel/quic_client.cpp:308-315 | One turn moves the oldest bytes, at least one, and leaves the rest of the stream and of the buffer alone |
| AsyncStream.MsquicAsyncStream.DrainLocked | src/tunnel/quic_client.cpp:304-318 | Terminates and copies exactly the oldest min(maxBytes, available) bytes, whatever the chunking |
| AsyncStream.MsquicAsyncStream.TryReadSection | src/tunnel/quic_client.cpp:196-217 | A section of tryRead drains if there is data or end of stream, and otherwise changes nothing but the parked fulfiller |
| AsyncStream.MsquicAsyncStream.OnReceive | src/tunnel/quic_client.cpp:327-345 | A RECEIVE event appends its buffers in order, marks the end of stream exactly if it was marked or FIN is set, and takes the parked fulfiller |
| AsyncStream.MsquicAsyncStream.OnAborted | src/tunnel/quic_client.cpp:356-367 | An abort or shutdown event sets end of stream, loses no byte, and takes the parked fulfiller |
| AsyncStream.NextKeepsInv | src/tunnel/quic_client.cpp:195-223 | Each critical section of callbacks and reader keeps the byte and wakeup invariant |
| AsyncStream.EveryRun | src/tunnel/quic_client.cpp:195-371 | In every interleaving, bytes returned followed by bytes queued are the bytes received, in order; a parked fulfiller implies an empty queue and no end of stream |
| AsyncStream.StateFromEvents | src/tunnel/quic_client.cpp:325-371 | The end of stream is marked exactly if a FIN, an abort or a shutdown arrived; bytes returned and queued are those of the RECEIVE events in order; the outstanding read is the latest one called |
| AsyncStream.OutstandingReadCompletes | src/tunnel/quic_client.cpp:195-223 | A read outstanding when data, FIN or an abort arrives completes by its own next steps with the oldest bytes, whether it was before its recheck, waiting or resumed |
| AsyncStream.ConcatJoins | src/tunnel/quic_client.cpp:331-338 | The buffers of an event are taken one after the other, in order |
| AsyncStream.NoLostWakeup | src/tunnel/quic_client.cpp:204-222 | A waiting reader with something to read has its fulfiller in a callback's hands, and fulfilling it completes the read |
| AsyncStream.EventTakesWakeup | src/tunnel/quic_client.cpp:341-365 | Every RECEIVE, abort or shutdown event takes the waiting reader's fulfiller, if it was not taken before |
| AsyncStream.ReadCompletes | src/tunnel/quic_client.cpp:197-222 | A read completes with the oldest available bytes, up to the maxBytes it was called with; with none only at the end of the stream |
| SendContexts.NextKeepsInv | src/tunnel/quic_client.cpp:226-250 | Building, sending, refusing and reporting keep each context owned exactly once |
| SendContexts.EveryRun | src/tunnel/quic_client.cpp:688-711 | Over every run live contexts are exactly those a sender holds or msquic has not handed back; none is freed twice or used after free |
| SendContexts.NothingLeaks | src/tunnel/quic_client.cpp:346-355 | When senders have returned and msquic has reported on every send, every context was freed |
| SendContexts.InformationalReports | src/tunnel/quic_client.cpp:790-806 | Acknowledged and lost reports leave the heap alone |
| SendContexts.HandOverFrees | src/tunnel/quic_client.cpp:798-804 | For a send in flight msquic may report SENT or CANCELED, for a stream write SEND_COMPLETE, and any of these frees exactly its context |
| SendContexts.LiveFromEvents | src/tunnel/quic_client.cpp:688-711 | The live contexts are exactly those a sender owns and those of accepted sends without a SENT, CANCELED or SEND_COMPLETE among the events |
| QuicHandles.DoKeeps | include/cfd/msquic_raii.hpp:24-35 | Each msquic step of a client that its held handles allow keeps the library free of misuse and the handles accounted for |
| QuicHandles.EveryRun | src/tunnel/quic_client.cpp:84-102 | With any number of clients, any interleaving of their connect, close and destructor calls and any failures: these never misuse msquic, the count is the number of holders, the table exists exactly while it is positive, and handles close once, dependants first |
| QuicHandles.HandlesAreNested | src/tunnel/quic_client.cpp:413-502 | A connected client has its three handles open, the configuration on the registration and the connection on both |
| QuicHandles.EveryCallIsProper | src/tunnel/quic_client.cpp:396-564 | Each msquic call of every run is made with the table there and on open handles of the right kind; a handle is closed only when nothing open depends on it, and the last API release finds none open |
| QuicHandles.DestroyedClient | src/tunnel/quic_client.cpp:391-394 | After its destructor a client holds nothing and every handle it ever opened is closed |
| QuicHandles.AllReleased | src/tunnel/quic_client.cpp:96-102 | When no client holds the API, everything opened was closed and the table is gone |
| QuicHandles.CycleIsProper | src/tunnel/quic_client.cpp:396-564 | The close-then-connect cycle is proper from every good state, whatever fails |
| QuicHandles.DestroyIsProper | src/tunnel/quic_client.cpp:391-394 | The destructor is proper from every good state |
| QuicHandles.ReconnectWithoutClose | src/tunnel/quic_client.cpp:413-434 | From every good state `connect` without `close` misuses msquic exactly when a configuration is held and a new registration opens |
| QuicHandles.FirstConnect | src/tunnel/quic_client.cpp:405-502 | What the first connect holds when it returns: each resource exactly when all opens up to it succeeded |
| QuicHandles.StartsIfAllSucceed | src/tunnel/quic_client.cpp:405-564 | Connect gets to wait for the handshake exactly when every call of it that can fail succeeded |
| QuicHandles.OrderOfCalls | src/tunnel/quic_client.cpp:493-558 | Credentials are loaded and the remote address is set before the start, and a connection is shut down before it is closed |
| QuicHandles.TwoConnects | src/tunnel/quic_client.cpp:413-434 | From the empty library two connects in a row misuse msquic exactly when the first opened its configuration and the second opens its registration |
| ConnectionUse.OwnCallsStayProper | src/tunnel/quic_client.cpp:723-733 | Calls from other threads leave the clients' own calls proper |
| ConnectionUse.LateExactlyIfClosed | src/tunnel/quic_client.cpp:688-703 | A call from another thread is on no handle or a dead one exactly when the field was empty as it was read or the client's close has closed the connection since; otherwise it is on an open handle with the API table there |
| ConnectionUse.LateCall | src/tunnel/quic_client.cpp:689-703 | From every run with a connected, idle client and an idle user, some continuation makes that user late |
| ConnectionUse.LateCallHappens | src/tunnel/quic_client.cpp:689-703 | A late call is reached from the start |
| QuicClient.ApiTable.Init | src/tunnel/quic_client.cpp:84-94 | The counter-then-open code is the first-user-opens step, with the count restored on failure |
| QuicClient.ApiTable.Release | src/tunnel/quic_client.cpp:96-102 | The counter code is the last-user-closes step |
| QuicClient.QuicClientImpl.Adopt | include/cfd/msquic_raii.hpp:37-41 | Assigning a new handle to its field closes the previous one |
| QuicClient.QuicClientImpl.Connect | src/tunnel/quic_client.cpp:396-564 | The method performs exactly its program of msquic steps, with the same early returns, and starts exactly when all fallible calls succeed |
| QuicClient.QuicClientImpl.CloseAll | src/tunnel/quic_client.cpp:723-733 | Closes connection, configuration and registration in this order and holds none afterwards |
| QuicClient.QuicClientImpl.Destroy | src/tunnel/quic_client.cpp:391-394 | Closes everything, then gives the API back if it was held; msquic in good order beside any other clients stays so |
| QuicClient.QuicClientImpl.Reconnect | src/main.cpp:315-317 | The supervisor's cycle is its program of msquic steps, and msquic in good order beside any other clients stays so, whatever fails |
| Disconnect.ClientFlags.Reset | src/tunnel/quic_client.cpp:397-403 | Clears the three flags and keeps the handler |
| Disconnect.ClientFlags.OnConnected | src/tunnel/quic_client.cpp:759-767 | The CONNECTED event as a step of the flag machine |
| Disconnect.ClientFlags.FireDisconnect | src/tunnel/quic_client.cpp:840-852 | The shutdown events as a step, with whether the handler is called |
| Disconnect.FlagsMeaning | src/tunnel/quic_client.cpp:757-784 | After any events since a reset: ok means CONNECTED happened, done means any event happened, notified means a shutdown followed CONNECTED |
| Disconnect.FiresOnce | src/tunnel/quic_client.cpp:840-852 | Between resets the handler fires at most once, and exactly when it is installed at the first shutdown after CONNECTED |
| Disconnect.FiresExactlyThere | src/tunnel/quic_client.cpp:840-852 | At each event: the handler fires exactly if this is the first shutdown after CONNECTED and a handler is installed |
| HandlerLifetime.NextKeepsInv | src/tunnel/quic_client.cpp:723-733 | Opening, storing, closing and callbacks keep: live handles are stored or being opened, closing ones are waited for under the mutex, callbacks run only on unclosed handles |
| HandlerLifetime.EveryRun | src/main.cpp:305-309 | In every interleaving with main's close the handler is never called after the thread function returned; by then every handle is closed and every callback over |
| HandlerLifetime.CopiedInTheLoop | src/tunnel/quic_client.cpp:840-852 | A callback takes the handler along exactly while the thread is in its loop, and then has to call it before it ends |
| HandlerLifetime.LateWithoutDraining | src/tunnel/quic_client.cpp:867-871 | A run with a late call, if ConnectionClose did not drain callbacks |
| HandlerLifetime.LateWithoutMutex | src/tunnel/quic_client.cpp:724-725 | A run with a late call, if close were not serialised |
| HandlerLifetime.LateExactlyWithoutASafeguard | src/main.cpp:382-385 | A late call is reachable exactly when one of the two safeguards is missing |
| Supervisor.DoubledIsNextBackoff | src/main.cpp:321-321 | Capped doubling steps through min(1000 * 2^k, 32000) |
| Supervisor.WaitsAreBounded | src/main.cpp:346-350 | For every 64-bit retry_after the wait lies in 1000 to 32000 ms, is the requested delay unless capped, and nothing overflows 32 bits |
| Supervisor.NextKeepsInv | src/main.cpp:275-386 | Every step of threads, worker and main keeps the queue, count, backoff and shutdown invariants |
| Supervisor.ExactlyOnceInOrder | src/main.cpp:265-294 | Settled, in-hand and queued items are all pushes in order: each promise is set at most once, none by the final drain |
| Supervisor.ResultIsTheWorkers | src/main.cpp:286-287 | What a promise holds is the outcome of the worker's registration of that very item |
| Supervisor.ReceivesItsOwn | src/main.cpp:328-338 | A thread receives the outcome of the item it pushed itself |
| Supervisor.NeverStranded | src/main.cpp:280-281 | While a thread waits on its future the worker has not left its loop, and the answer is there, in work, or next to be picked |
| Supervisor.DrainKeepsInv | src/main.cpp:289-293 | The final drain loop finds an empty queue |
| Supervisor.OkCountIsHealthy | src/main.cpp:358-372 | ok_count is the number of threads between increment and decrement, and so 0 to the number of threads |
| SupervisorHistory.ReceiveMeans | src/main.cpp:338-359 | A thread gets the worker's outcome for its own item; it becomes healthy and is counted exactly if that is ok, with its backoff reset; otherwise it sleeps for the requested seconds up to 32, or its backoff |
| SupervisorHistory.HealthyExactlyIfRegistered | src/main.cpp:356-372 | In every run a thread is healthy exactly if its own last event is the receipt of an ok outcome |
| SupervisorHistory.OkCountFromEvents | src/main.cpp:358-372 | ok_count is the number of threads whose own last event is the receipt of an ok outcome |
| SupervisorHistory.PlaceFromLastEvent | src/main.cpp:311-386 | In every run a thread is where its own last event led, for each kind of event |
| SupervisorHistory.DoublingsAreSetbacks | src/main.cpp:320-379 | The doublings are the failed connects, failed registrations and drops since the last ok outcome, the one being slept on not yet counted |
| SupervisorHistory.SleepAfterSetback | src/main.cpp:320-378 | A setback is followed by a sleep of min(1000 * 2^k, 32000) ms, k being the setbacks since the last success, unless the server asked for a delay |
| SupervisorHistory.BackoffInNumbers | src/main.cpp:258-259 | 1, 2, 4, 8, 16 and then 32 seconds |
| Supervisor.SleepsAreBounded | src/main.cpp:311-379 | In every reachable state the backoff is the closed form of its doublings since the last success, and every sleep is 1000 to 32000 ms |
| Supervisor.ShutdownIsComplete | src/main.cpp:397-406 | After the joins no thread runs, nothing is queued, every promise was set and ok_count is 0 |
| SupervisorShutdown.NeverStuck | src/main.cpp:397-406 | In every reachable state before main has joined everything some thread can take a step: promises, queue and joins never wait in a circle |
| SupervisorShutdown.StepIsUsedUp | src/main.cpp:313-385 | After g_stop every step, also a push to the queue, lowers a fixed measure of the steps left |
| SupervisorShutdown.ShutdownIsBounded | src/main.cpp:397-406 | After g_stop a run takes at most that many further steps, whatever the scheduling |
| SupervisorShutdown.ShutdownCompletes | src/main.cpp:397-406 | Every run that is taken as far as it goes after g_stop ends with main having joined everything and every promise set, within the steps left at the stop |
| RoundRobin.CountIsShare | src/main.cpp:134-136 | Until the counter wraps, and for ever when the sinks divide its range, each sink gets its share of a deal in turn |
| RoundRobin.BalancedIffDivides | src/main.cpp:125-138 | Counts stay within one of each other for every number of packets, across wraps, exactly when the number of sinks divides the counter's range |
| RoundRobin.UnbalancedAfterWrap | src/main.cpp:134-136 | Otherwise the first packet after the wrap puts sink 0 two ahead of the last sink |
| RoundRobin.FourSinksBalanced | src/main.cpp:39-39 | Four sinks stay balanced for ever with 32-bit and with 64-bit counters |
| RoundRobin.MultiSink.OnPacket | src/main.cpp:132-137 | The packet goes, unchanged, to the sink whose number is the wrapped counter modulo the number of sinks, and to no other; with no sinks nothing happens |
| RoundRobin.MultiSink.StaysBalanced | src/main.cpp:125-138 | The packets delivered to any two sinks never differ by more than one |
| Base64.MakeTable | src/tunnel/registration.cpp:46-53 | The table built from the alphabet maps each symbol to its value and everything else to -1 |
| Base64.ValueIsPlace | src/tunnel/registration.cpp:49-51 | A symbol's value is its place in the alphabet |
| Base64.ReadQuartet | src/tunnel/registration.cpp:62-76 | A quartet passes exactly when each character is a symbol or a pad in the last two places of the text with only pads after it |
| Base64.PushQuartet | src/tunnel/registration.cpp:77-88 | The shifted and masked pushes are the 24 bits of the quartet, less 8 for each pad |
| Base64.Decode | src/tunnel/registration.cpp:44-91 | Accepts exactly padded standard-alphabet text and appends its bytes; on other text what the good quartets gave stays appended |
| Base64.DecodeEncode | src/tunnel/registration.cpp:44-91 | The encoding of any bytes is accepted and decodes to those bytes |
| Base64.DecodedLength | src/tunnel/registration.cpp:55-56 | An accepted text gives three quarters of its length less its pads |
| Base64.EncodeDecode | src/tunnel/registration.cpp:77-88 | Re-encoding gives an accepted text back exactly when its discarded pad bits are zero |
| Base64Numbers.DecodedNumber | src/tunnel/registration.cpp:77-88 | Read as a number in base 64 an accepted text is its bytes read in base 256, with less than 8 further bits for each pad |
| Uuid.CountDashes | src/tunnel/registration.cpp:26-27 | With the four dashes in place, no further dash exactly when the count is four |
| Uuid.AtDigit | src/tunnel/registration.cpp:31-39 | The count of bytes fixes the place of the scan: no write past out[15], and in canonical text a digit pair never meets a dash |
| Uuid.ParseUuid | src/tunnel/registration.cpp:17-42 | Accepts exactly canonical text, although any dash is skipped, fills the 16 bytes, writes nothing if length or dashes are wrong, and reads at most the terminator |
| Uuid.ParsePrint | src/tunnel/registration.cpp:17-42 | Parsing inverts printing of any 16 bytes, in either case |
| Uuid.PrintParse | src/tunnel/registration.cpp:20-25 | Printing inverts parsing, but for the case of letters |
| Uuid.PlacesInNumbers | src/tunnel/registration.cpp:29-40 | Each of the sixteen bytes is made of the two digits at its place, the first one high |
| Uuid.HexDigitsInOrder | src/tunnel/registration.cpp:20-25 | A digit's value is its place among the hex digits, in either case |
| Netlink.NlaPut | src/net/netlink.cpp:28-40 | Succeeds exactly when the attribute fits the buffer; then exactly the attribute and the length field are written, otherwise nothing |
| Netlink.AppendedBytes | src/net/netlink.cpp:33-38 | The attribute lies behind all earlier bytes, and everything outside it and the length field is unchanged |
| Netlink.AlignIsLeast | src/net/netlink.cpp:30-30 | Alignment is to the least multiple of 4 that is not below |
| Netlink.AttributeOnTheWire | src/net/netlink.cpp:33-38 | After a successful call the two bytes of the length, the two of the type, the data, and the four of the total length are in their places; all else is as before |
| Netlink.ByteOrder32 | src/net/netlink.cpp:38-38 | Numbers are stored low byte first on a little-endian host and high byte first on a big-endian one |
| Netlink.AppendedIsRead | src/net/netlink.cpp:28-40 | A reader finds the earlier attributes and then the new one, exactly when its length fits 16 bits |
| Netlink.PutAllReads | src/net/netlink.cpp:28-40 | After any calls on a buffer below 2^16 bytes a reader finds exactly the attributes of the successful calls, in order, and the length never exceeds the buffer |
| NetlinkClient.Client.Begin | src/net/netlink.cpp:131-144 | The zeroed buffer reads as a request with its header fields, the next sequence number and no attributes |
| NetlinkClient.HoldsCut | src/net/netlink.cpp:151-151 | Sending only nlmsg_len bytes loses no field and no attribute |
| NetlinkClient.Client.SetMtu | src/net/netlink.cpp:114-128 | Always sends; the bytes are given in full, and read back as the link request (type 16) with the one MTU attribute (type 4) |
| NetlinkClient.Client.AddAddr | src/net/netlink.cpp:130-152 | Always sends; the bytes are given in full, and read back as the address request (type 20) whose local and peer attributes are the first 4 bytes of a V4 address or all 16 of a V6 one |
| NetlinkClient.Client.AddRoute | src/net/netlink.cpp:154-178 | Always sends; the bytes are given in full, and read back as the route request (type 24) with the destination's 4 or 16 bytes and the outgoing interface |

## Left out

- TLS, credentials, the embedded CA file, DNS, sockets, TUN ioctls, the wake pipe, logging, the command line, Cap'n Proto messages: foreign calls or plumbing; their outcomes are arbitrary where the model needs one.
- Address text: `inet_pton` and `inet_ntop` are not modelled; addresses are given.
- The `minBytes` argument of `tryRead`: the code ignores it when draining, so only the byte stream and end-of-stream properties are claimed.
- Fulfilling the promise of a stream write, and KJ's promise machinery: a fulfiller is parked, taken, fulfilled, nothing more.
- Distinct connection indexes: registration uses the outer loop variable, so they are not distinct in this code.
- Liveness of waits on `g_wakeup_cv`: flags are set and notified without the mutex, so a notification can be missed; a wait whose condition holds can always be left here, and the shutdown results hold under that reading.
- Which connection a `disc_fired` belongs to: a late handshake may set it during the next turn of the loop.
- `connect` on one thread racing with main's `close` on the same handle fields: `QuicHandles` runs the calls of one client one after the other, and `HandlerLifetime` treats taking and storing the connection as atomic steps.
- QuicHandles.EveryRun: covers the calls made by connect, close and the destructor; datagram sends and stream opens from other threads are in `ConnectionUse`, where they can be late.
- Stream handles and their own calls: a stream is opened and dropped inside one registration, and only its receive queue and write contexts are modelled.
- The wait for the handshake inside `connect`, and a reset of the flags while callbacks of an old connection still run: `Disconnect` starts each sequence of events at a reset.
- Timing: watchdogs, timeouts and real time are nondeterministic choices.
- Atomics: misaligned or overlapping addresses and plain accesses beside the three stubs; the stubs' memory order is taken as sequentially consistent.
- Lpm.LpmTrie.Delete: `delete` is a log of freed nodes, because Dafny has no explicit deallocation; use after free appears as a node that is no longer part of the tree.
- Netlink.NlaPut: size_t overflow of a length near the end of the address space, because lengths are naturals, and the 32-bit wrap of NLMSG_ALIGN for a length field near 2^32, which no message inside its buffer has; the callers pass at most 16 bytes.
- `link_up`, `open`, `if_index` and the reply of the kernel: they build no attributes, or only talk to the kernel.
- Capacity reservation of the output vector in `base64_decode`, and allocation failure in general.
- The frame header codec, `Buffer`, `UniqueFd`, the configuration reader: true but easy.
