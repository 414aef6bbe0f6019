# A Dafny model of sendrawtx

sendrawtx is a Bitcoin transaction relay: a master process and its workers (C, libevent, nghttp2) that accept
raw transactions over HTTP and hand them to a node, and a page that decodes transactions in the browser
(JavaScript). This project models the parts of it whose correctness is not visible from one function, and proves
what holds of them for every input, every run of callbacks and every answer of the kernel or the network.

Code that changes state is modelled by classes and methods with loops, proved against specification functions;
lemmas about those functions carry the theorems. Runs of callbacks come with the trace of what every one of them did.
The groups are:

* **Admission in a worker.** `Slots` and `Worker`: the tiered slot pool shared by connections and HTTP/2 streams,
  with accept, promotion, downgrade, keep-alive reset, streams, free and drain. `TokenBucket`, `RateTable`,
  `TableCurve`, `HashChains` and `RateLimiter`: the token bucket and the chained hash table around it. `IpAddress`
  and `IpAcl`: the access list.
* **Protocols.** `RpcHistory` and `Rpc`: the asynchronous RPC request on the intrusive list of `IntrusiveList`.
  `Master`: forking, crashes, reloads and shutdown. `HeaderReader` and `Chunks`: header reading in pieces.
  `ResponseBuffer`: accumulation of the node's reply.
* **The Bitcoin codec.** `Words`, `Gf32` and `Bech32`, `ConvertBits`, `Base58`, `HexBytes`, `TxFormat`, `TxDecoder`,
  `TxId`, `TxExamples`, `HalfLengths`, `PsbtExtractor`, `PsbtExamples`.
* **Matched pairs.** `Paths`: two validators and the router. `BracketScan` and `JsonScan`: the bracket scan and
  the JSON grammar.

`Wrappers` and `Arithmetic` hold what several modules share.

Five properties one might expect turn out not to hold of the code on all inputs. For each there is a lemma that
says exactly when they do, and one that shows an input on which they do not:

* Re-encoding a length for the transaction id is right if and only if the length is below 253, or it needs two
  bytes and they are equal: from 253 on the code writes the bytes in the opposite order (`TxId.LengthsAgree`,
  `TxId.HashedIsLegacy`). A script of 253 bytes is printed with the wrong length (`TxId.LongScriptMisprinted`).
* Base58 restores the bytes if and only if some byte is not zero (`Base58.RoundTrip`, which also says what becomes
  of a run of zeros).
* A transaction extracted from a PSBT decodes to what was signed if and only if it has an input and no partial
  signature was used in place of a final field, and its values come back if and only if they are below 2^64 as
  JavaScript numbers (`PsbtExtractor.ExtractionDecodes`). Without inputs the extracted digits do not decode
  (`PsbtExamples.NoInputsFails`); a partial signature comes back as the pushes made of it
  (`PsbtExamples.PartialUsed`); values from 2^64 - 1024 on round to 2^64 and are printed as zero
  (`PsbtExamples.ValuePrintedAsZero`).
* The validators pass an ACME challenge path if and only if it is shorter than 64 characters (`Paths.AcmePasses`,
  `Paths.LongAcmeExample`).
* The bracket scan takes a quote after a backslash for an escaped one, so every string or name that ends in an
  escaped backslash swaps inside and outside. It stops at the end of a value if and only if counting the brackets it
  then sees never gets to zero before and, unless nothing follows the value, ends at zero after an even number of
  such strings (`JsonScan.BracketScanIff`). So it is right on every value without such strings
  (`JsonScan.BracketScanExact`), wrong after an odd number of them (`JsonScan.OddMisleads`), and for a value without
  brackets of its own kind inside the number being even is all it takes (`JsonScan.EvenIffExact`). It is wrong on
  ["\\"] (`JsonScan.EscapedBackslashMisleads`).

## Model

| member | source | states |
|---|---|---|
| `Slots.SlotManager.constructor` | src/slot_manager.c:3-11 | a new pool has no slot taken |
| `Slots.SlotManager.Acquire` | src/slot_manager.c:13-40 | succeeds exactly when the tier is below its maximum, and then takes one slot of that tier and no other |
| `Slots.SlotManager.Release` | src/slot_manager.c:42-66 | gives back one slot of the tier; a release that finds the counter at zero changes nothing and is counted |
| `Slots.SlotManager.Promote` | src/slot_manager.c:68-89 | succeeds exactly for the same tier or a higher one with room; moves one slot, or changes nothing |
| `Slots.SlotManager.TradeDown` | src/connection.c:166-180 | the counters for every tier and state, a release that finds nothing to release included; both slots are lost exactly when both tiers are full after the release, and for a slot that is held that is impossible |
| `Slots.Conservation` | src/slot_manager.c:13-89 | in a balanced pool each counter is the number of holders of its tier and within its maximum, and connections and streams together never outnumber the slots |
| `Slots.BalancedUpdate` | src/slot_manager.c:13-89 | any change of one connection that the counters follow keeps the balance |
| `Slots.BalancedRetier` | src/connection.c:126-181 | moving a connection's slot to a tier with room keeps the balance, and the release in it finds a positive counter |
| `Slots.BalancedStreamRetier` | src/http2.c:494-511 | the same for the slot of a stream |
| `Slots.BalancedClose` | src/http2.c:112-120 | a closing stream gives back exactly its slot, from a positive counter |
| `Slots.BalancedLose` | src/connection.c:1176-1187 | a keep-alive reset without room leaves the counters balanced for a connection without a slot |
| `Worker.WorkerProcess.constructor` | src/worker.c:557-586 | a new worker satisfies the invariant: no connection, no slot taken, not draining, with the thresholds, maxima and listeners given |
| `Worker.WorkerProcess.AcceptCb` | src/worker.c:317-381 | accepts exactly when not draining, admitted, created and a normal slot is free; the new connection is first in the list, and a failed one leaves everything as it was |
| `Worker.WorkerProcess.TlsAcceptCb` | src/worker.c:387-478 | the same, through all three failures of the TLS set-up |
| `Worker.WorkerProcess.Attach` | src/connection.c:248-254 | linking a connection whose slot was acquired restores the balance |
| `Worker.WorkerProcess.TryPromote` | src/connection.c:126-150 | from the huge threshold on the connection moves to a huge slot, from the large one on from a normal to a large slot, if there is room; otherwise it keeps the slot it has; it succeeds exactly when that slot is enough for the size |
| `Worker.WorkerProcess.Downgrade` | src/connection.c:157-181 | the connection ends in the normal tier if there is room and in its own otherwise, and always holds a slot |
| `Worker.WorkerProcess.ResetForKeepalive` | src/connection.c:1158-1208 | the connection ends in the normal tier; it loses its slot only when it had to give up a higher one and no normal one was free |
| `Worker.WorkerProcess.WriteCb` | src/connection.c:1251-1280 | frees the connection exactly when it is closing, or wants another request and has lost its slot |
| `Worker.WorkerProcess.FreeStreams` | src/http2.c:663-678 | every stream of a leaving connection gives back its slot |
| `Worker.WorkerProcess.ReleaseOwn` | src/connection.c:363-367 | a leaving connection gives back its slot, if it holds one |
| `Worker.WorkerProcess.Depart` | src/connection.c:329-368 | the connection leaves the list and its own slot and those of its streams leave the pool, no other |
| `Worker.WorkerProcess.ConnectionFree` | src/connection.c:329-377 | exactly this connection leaves the list, with all its slots, and the invariant holds again |
| `Worker.WorkerProcess.BeginHeaders` | src/http2.c:412-445 | a stream opens exactly when there is memory and a normal slot; otherwise nothing changes |
| `Worker.WorkerProcess.FindStream` | src/http2.c:99-107 | the first stream with the identifier |
| `Worker.WorkerProcess.PathHeader` | src/http2.c:451-521 | the stream moves up by the same rule; it is refused exactly when its path is invalid or the slot it then has is not enough, and nothing else of the connection changes |
| `Worker.WorkerProcess.DowngradeStream` | src/http2.c:178-198 | the stream ends in the normal tier if there is room and in its own otherwise, and always holds a slot |
| `Worker.WorkerProcess.StreamClose` | src/http2.c:367-407 | the first stream with the identifier leaves with its slot |
| `Worker.WorkerProcess.CheckDrain` | src/worker.c:204-229 | when draining, the listeners are off, and the exit is requested if no connection is active |
| `Worker.WorkerProcess.SignalCb` | src/worker.c:167-176 | the drain starts and the invariant holds, so an idle worker requests its exit at once |
| `Worker.WorkerProcess.HandleOn` | src/connection.c:126-377 | for every callback, by its kind, what the connection is afterwards, or that it is gone; no other connection changes, and the invariant holds |
| `Worker.WorkerProcess.Handle` | src/worker.c:167-478 | for every callback what the list of connections is afterwards, given the slots in use, and whether the worker drains and exits; while draining the list never grows |
| `Worker.WorkerProcess.Run` | src/worker.c:167-478 | over every run of callbacks the counters equal what connections and streams hold, no release underflows, every live connection and stream holds its slot, the connection count is the list length, and the exit has been requested if and only if the worker is draining and the list is empty; and every callback of the run has done what its kind says |
| `Worker.Lifetime` | src/worker.c:167-478 | the same from the start of a worker, without assumptions: each counter is the number of holders of its tier and within its maximum, the connections and streams together are as many as the slots taken, and the worker asks to exit exactly when it was told to drain and has no connection; with the trace of what every callback did |
| `IntrusiveList.List.PushFront` | src/connection.c:248-254 | links a node before the others; the links spell the sequence in both directions |
| `IntrusiveList.List.Relink` | src/rpc.c:881-888 | the neighbours of the node point past it, and no other link changes |
| `IntrusiveList.List.Remove` | src/connection.c:335-343 | exactly this node leaves, the others keep their order, and the links are well formed |
| `TokenBucket.RequestBounds` | src/rate_limiter.c:163-215 | the tokens stay between zero and the burst |
| `TokenBucket.FoundIsLeast` | src/rate_limiter.c:163-215 | the tokens a request finds are the least headroom over all earlier requests of the entry |
| `TokenBucket.ArrivalCurve` | src/rate_limiter.c:143-215 | with a clock that does not run back, a request is admitted if and only if, for every earlier request, the admissions since it and this one are at most burst + rate * time |
| `RateTable.RunInBounds` | src/rate_limiter.c:119-245 | over every run, with two independent clocks, the table holds at most 10000 entries and every bucket is in bounds |
| `RateTable.OthersEntry` | src/rate_limiter.c:119-245 | an event leaves the entry of every other address as it is, unless it sweeps and the last request is more than sixty seconds old |
| `RateTable.SurvivesIff` | src/rate_limiter.c:119-245 | when the clocks agree on its last request, an entry survives a run if and only if every later sweep, periodic or of a full table, finds that request at most sixty seconds old |
| `RateTable.RecentStays` | src/rate_limiter.c:119-245 | so an address whose last request is at most sixty seconds old is never thrown out |
| `RateTable.RunBalanced` | src/rate_limiter.c:119-245 | over every run, what an address was granted plus the tokens it has left is paid for by its bursts and by elapsed time |
| `RateTable.AdmissionBound` | src/rate_limiter.c:119-245 | with e evictions an address gets at most (e + 1) * burst + rate * elapsed admissions |
| `RateTable.IdleIsFresh` | src/rate_limiter.c:143-179 | an entry idle for burst/rate seconds answers as a new one does |
| `RateTable.EvictionInvisible` | src/rate_limiter.c:222-245 | evicting such an entry changes no later decision, of any key, while the table is not full |
| `TableCurve.RunLives` | src/rate_limiter.c:119-245 | over every run the entry of an address, and every decision on it, is what the token bucket makes of the requests since the entry was made |
| `TableCurve.TableArrivalCurve` | src/rate_limiter.c:119-245 | over every run the table admits a request if and only if its address has or gets an entry and the request is within the arrival curve through every request the entry has seen |
| `HashChains.HoldsUpdate` | src/rate_limiter.c:143-154 | changing the chain of one key, and the count with it, changes the map at that key only |
| `RateLimiter.Limiter.constructor` | src/rate_limiter.c:72-94 | a new limiter holds the empty map; it is enabled exactly for a positive rate, and its burst is the one given if that is positive, and the rate otherwise |
| `RateLimiter.Limiter.Find` | src/rate_limiter.c:124-131 | the walk finds the key in its chain or shows that it is not there |
| `RateLimiter.Limiter.SweepChain` | src/rate_limiter.c:222-245 | one chain is left with entries whose last request is at most sixty seconds old, having lost no such entry; the other chains stay |
| `RateLimiter.Limiter.Cleanup` | src/rate_limiter.c:222-245 | the entries left are exactly those whose last request is at most sixty seconds old, unchanged |
| `RateLimiter.Limiter.GetEntry` | src/rate_limiter.c:119-157 | finds or makes the entry of a key, sweeping first when the table is full; fails exactly when it is still full or memory is short |
| `RateLimiter.Limiter.Charge` | src/rate_limiter.c:163-215 | one entry becomes what the token bucket makes of it, and no other changes |
| `RateLimiter.Limiter.Allow` | src/rate_limiter.c:181-215 | the hash table refines the map: the decision and the new map are those of one step of the map model, for any hash function; below 10000 entries a new address needs only memory and no other entry changes, and at 10000 exactly the entries older than sixty seconds go |
| `RateLimiter.Limiter.Run` | src/rate_limiter.c:119-245 | over every run of requests and sweeps the hash table holds what the map model makes of the run, and gives its decisions |
| `RateLimiter.Lifetime` | src/rate_limiter.c:72-245 | from the start of a limiter every decision is the arrival-curve rule over the life of the entry, and an address evicted e times is granted at most (e + 1) * burst + rate * elapsed requests |
| `IpAddress.MaskedByte` | src/ip_acl.c:129-148 | comparing two bytes under the mask compares their top bits |
| `IpAddress.CidrMatchIsRange` | src/ip_acl.c:129-148 | the byte-and-mask comparison holds if and only if the top prefix bits of the 128-bit numbers are equal |
| `IpAddress.RangeIsBits` | src/ip_acl.c:129-148 | a range is exactly the addresses that agree with the network bit by bit in the first prefix bits |
| `IpAddress.MappedRange` | src/ip_acl.c:75-94 | an IPv4 /n stored as a mapped /(96 + n) contains exactly the mapped addresses whose IPv4 part agrees in n bits |
| `IpAddress.MappedAgree` | src/ip_acl.c:75-94 | bit by bit, the first 96 bits say that the address is ::ffff:a.b.c.d and the others are those of the IPv4 prefix |
| `IpAcl.ExactCovers` | src/ip_acl.c:120-123 | an exact entry is the range of its one address |
| `IpAcl.Acl.AddExact` | src/ip_acl.c:224-251 | the set of denoted ranges grows by exactly the address, and a duplicate needs no memory |
| `IpAcl.Acl.AddCidr` | src/ip_acl.c:256-280 | the set of denoted ranges grows by exactly the range |
| `IpAcl.Acl.Contains` | src/ip_acl.c:348-381 | yes if and only if some denoted range covers the address |
| `IpAcl.Acl.Load` | src/ip_acl.c:303-338 | the list denotes exactly what was inserted and there was memory for, in any order and with duplicates |
| `IpAcl.Lookup` | src/ip_acl.c:224-381 | after any insertions a lookup says yes if and only if one there was memory for is that address or a network that agrees with it in its first bits |
| `IpAcl.Stored4Covers` | src/ip_acl.c:75-86 | a stored IPv4 network covers exactly the mapped addresses that agree with it in the leading bits of the 32 |
| `IpAcl.Lookup4` | src/ip_acl.c:75-86 | a list of IPv4 networks finds an address if and only if it is an IPv4 address in one of them |
| `IpAcl.Check` | src/ip_acl.c:405-422 | the blocklist wins over the allowlist |
| `RpcHistory.SoundAdd` | src/rpc.c:866-874 | a new request joins the pending ones |
| `RpcHistory.SoundUpdate` | src/rpc.c:1143-1168 | a request that stays active stays accounted for |
| `RpcHistory.SoundFinish` | src/rpc.c:879-928 | a request that finishes leaves the list holding exactly the other pending ones |
| `Rpc.RpcManager.Remove` | src/rpc.c:879-891 | exactly this request leaves the list, and its links are cleared |
| `Rpc.RpcManager.Complete` | src/rpc.c:914-928 | the callback, if there is one, fires once with the status, and the request at that position of the list is gone, no other |
| `Rpc.RpcManager.Connect` | src/rpc.c:966-1013 | one more connection attempt; on failure the request has neither buffer event nor timer |
| `Rpc.RpcManager.RetryAuth` | src/rpc.c:1143-1168 | a first refusal leads to a second connection exactly when there is a cookie and it was refreshed |
| `Rpc.RpcManager.Conclude` | src/rpc.c:1176-1206 | a reply that is not retried ends its request and no other, with one callback whose status reports the reply |
| `Rpc.RpcManager.ProcessResponse` | src/rpc.c:1126-1206 | the request is connected again, at most once, exactly for a refused cookie that could be refreshed; otherwise its caller is told of success exactly when the reply has a body that is no error, of an error of the node exactly with its code, and of the other outcomes likewise |
| `Rpc.RpcManager.EventCb` | src/rpc.c:1018-1065 | the first flag set decides; at the end of a reply the status is the one that reports it |
| `Rpc.RpcManager.ReadCb` | src/rpc.c:1070-1106 | reading ends a request exactly when memory runs out |
| `Rpc.RpcManager.TimeoutCb` | src/rpc.c:1111-1120 | the overall timer ends the request, and its callback fires with a time-out |
| `Rpc.RpcManager.BroadcastAsync` | src/rpc.c:1208-1287 | the request is pending, first in the list, with nothing fired, exactly when every step of the set-up succeeds; otherwise its callback has fired once, out of memory or with a failed connection as the step says |
| `Rpc.RpcManager.Start` | src/rpc.c:1263-1287 | the same for the steps from the request on |
| `Rpc.RpcManager.Cancel` | src/rpc.c:1289-1303 | the request is gone and its callback never fires |
| `Rpc.RpcManager.CancelAll` | src/rpc.c:1305-1311 | the list ends empty; exactly the pending broadcasts are cancelled |
| `Rpc.RpcManager.Handle` | src/rpc.c:1018-1311 | for every event, by its kind, what the records and the list are afterwards; no finished broadcast changes |
| `Rpc.RpcManager.HandleOn` | src/rpc.c:1018-1303 | the same for the events of one request; an expired timer fires a time-out |
| `Rpc.RpcManager.Run` | src/rpc.c:866-1311 | over every run of events each completed broadcast has fired its callback exactly once, a cancelled one never, no request connects more than twice, and the well-formed list holds exactly the unfinished requests; and every event of the run has done what its kind says |
| `Rpc.SuccessIsAccepted` | src/rpc.c:866-1311 | over every run a caller is told of success only after the end of a reply that accepts its own transaction |
| `Rpc.Lifetime` | src/rpc.c:866-1311 | the same from the start of a manager, without assumptions |
| `Master.Kernel.Fork` | src/master.c:182-201 | the process answered, exactly when it is positive and no unreaped child has it; otherwise -1 |
| `Master.Kernel.WaitAny` | src/master.c:430-430 | reaps the process answered exactly when it is a child; otherwise zero, or -1 for an error or an interruption |
| `Master.MasterProcess.ForkInto` | src/master.c:210-210 | one fork, and the slot holds its answer or -1 |
| `Master.MasterProcess.StartWorkers` | src/master.c:205-220 | one fork for every slot, which holds the answer if no earlier fork had it and -1 otherwise; the children are exactly the positive answers |
| `Master.MasterProcess.FindWorker` | src/master.c:225-233 | the slot of a process, or proof that it has none |
| `Master.MasterProcess.RemoveDraining` | src/master.c:239-250 | one occurrence of the process leaves the draining list if it is there |
| `Master.MasterProcess.HandleWorkerExit` | src/master.c:255-289 | the slot of the process, if it has one, holds the answer of one fork, or -1, or 0 when shutting down; it leaves the draining list; and nothing else changes |
| `Master.MasterProcess.Replace` | src/master.c:277-288 | the same for a process in a slot, keeping the invariant |
| `Master.MasterProcess.SignalWorkers` | src/master.c:291-300 | exactly the workers in slots are sent the drain signal |
| `Master.MasterProcess.Reload` | src/master.c:351-402 | every worker in a slot is signalled, is what is draining from then on, and its slot holds the answer of the fork for it, or -1; there are as many forks as workers; a bad configuration changes nothing |
| `Master.MasterProcess.ReapOne` | src/master.c:320-335 | one answer frees exactly the slot of the worker whose exit it reports, and only an error other than an interruption fails |
| `Master.MasterProcess.ReapWorkers` | src/master.c:319-336 | the slots freed are exactly those of the workers whose exit was reported before waiting failed |
| `Master.MasterProcess.KillRemaining` | src/master.c:338-348 | exactly the workers still in slots are killed, and all of them are reaped |
| `Master.MasterProcess.WaitForWorkers` | src/master.c:305-349 | when the wait returns, no slot holds a process, every process that was in one is reaped, and exactly those whose exit was not reported were killed |
| `Master.MasterProcess.Loop` | src/master.c:421-441 | each round keeps the invariant, and does what its reload and the child it reaps say; the exit of a worker outside the slots never forks |
| `Master.MasterProcess.Reap` | src/master.c:428-434 | the child that is reported, if it is one, is reaped and handled; otherwise nothing changes |
| `Master.MasterProcess.Shutdown` | src/master.c:291-349 | no slot holds a process, every child left has been sent the drain signal, and exactly the workers whose exit was not reported were killed |
| `Master.RunRounds` | src/master.c:419-441 | the rounds up to the one in which the shutdown request comes in, each of which does what it should and keeps the master safe |
| `Master.Run` | src/master.c:404-449 | over every run of crashes, failed forks and reloads: after the start and after every round, positive slots are distinct unreaped children and every other unreaped child has been sent the drain signal; a round without a reload in which no worker in a slot exits forks nothing; and the shutdown leaves no process in a slot, the workers killed being exactly those whose exit was not reported; the slots after the start hold the answers of the forks, and every round does what its reload and its reaped child say |
| `Master.OthersReplaced` | src/master.c:255-289 | replacing a slot whose process is reaped or signalled leaves every other child accounted for |
| `Master.DrainingDisjoint` | src/master.c:351-402 | after a reload the draining workers are apart from the new ones |
| `HeaderReader.Search` | src/connection.c:1047-1056 | the first blank line from a position on |
| `HeaderReader.ResumeFinds` | src/connection.c:1058-1060 | resuming three bytes back finds the same first blank line as a search of the whole |
| `HeaderReader.RefusalStays` | src/connection.c:1062-1070 | a refused prefix stays refused however the data go on |
| `HeaderReader.DecisionStays` | src/connection.c:1047-1091 | once decided, more bytes do not change the outcome |
| `HeaderReader.DecisionIs` | src/connection.c:1047-1091 | data is complete exactly at the end of its first blank line if the path up to there passes, and more is awaited exactly when there is no blank line and the visible path passes |
| `HeaderReader.Reader.OnRead` | src/connection.c:1047-1091 | after each read the outcome is that of all bytes so far |
| `HeaderReader.ReadAll` | src/connection.c:1030-1091 | for every split into chunks the outcome is that of the whole, complete exactly at the end of its first blank line |
| `ResponseBuffer.Response.NextCapacity` | src/rpc.c:1087-1090 | the doubling ends; the capacity is the first doubling that suffices, or the maximum |
| `ResponseBuffer.Response.Take` | src/rpc.c:1087-1105 | bytes move from the event buffer behind the bytes in use, which a reallocation keeps, and are terminated; it fails exactly when memory is wanted and not available, and then nothing changes |
| `ResponseBuffer.Response.OnRead` | src/rpc.c:1070-1106 | the buffer holds exactly the longest prefix that fits 4 MiB - 1, terminated, within its capacity |
| `ResponseBuffer.Accumulate` | src/rpc.c:1070-1106 | for every chunking the text is the whole reply, or its first 4194303 bytes |
| `Gf32.TimesLaws` | static/index.html:522-536 | the laws that determine multiplication in the field with x^5 = x^3 + 1 |
| `Gf32.DivisionUnique` | static/index.html:524-536 | division by the generator polynomial x^6 + 29 x^5 + 22 x^4 + 20 x^3 + 21 x^2 + 29 x + 18 of BIP 173 has one quotient and one remainder |
| `Gf32.RemainderUnique` | static/index.html:524-536 | two polynomials of degree below six that are both remainders of the same polynomial are equal, so being the remainder determines the checksum |
| `Bech32.GeneratorSymbols` | static/index.html:522-522 | the first generator word packs the coefficients of that polynomial, and each further one the previous ones times x |
| `Bech32.StepDivides` | static/index.html:527-533 | one round of the register is one step of long division |
| `Bech32.RunIsRemainder` | static/index.html:524-536 | for symbols of five bits the register is the remainder of everything fed to it, divided by the generator polynomial |
| `Bech32.HrpSymbols` | static/index.html:538-548 | a prefix expands to the upper bits of its code units, a zero, and their lower five bits |
| `Bech32.Polymod` | static/index.html:524-536 | the loop computes the run of the checksum register, which is the remainder of 1 followed by the symbols |
| `Bech32.RegisterFits` | static/index.html:524-536 | the register stays within thirty bits |
| `Bech32.StepXor` | static/index.html:524-536 | one step is linear over GF(2) |
| `Bech32.RunXor` | static/index.html:524-536 | so is a run over any list of symbols |
| `Bech32.ChecksumVerifies` | static/index.html:524-559 | six symbols verify if and only if they are the ones cut from the register |
| `Bech32.CreateChecksum` | static/index.html:550-559 | the created symbols give 1, or 0x2bc830a3 for Bech32m, and no other six symbols do; prefix, data and checksum leave that remainder when divided by the generator polynomial |
| `Bech32.SubstitutionDetected` | static/index.html:524-536 | changing one symbol anywhere changes the checksum |
| `Bech32.BurstDetected` | static/index.html:524-536 | any change within six neighbouring symbols, in any text of symbols, changes the register |
| `Bech32.Bip173Example` | static/index.html:550-559 | a12uel5l of BIP 173 verifies |
| `Bech32.Bip350Example` | static/index.html:550-559 | a1lqfn3a of BIP 350 verifies |
| `ConvertBits.Flush` | static/index.html:571-574 | whole groups leave the accumulator and no bit is lost |
| `ConvertBits.Accumulate` | static/index.html:569-570 | the unmasked 32-bit accumulator keeps the pending bits |
| `ConvertBits.Close` | static/index.html:577-585 | the leftover bits are padded, refused or dropped as the specification says |
| `ConvertBits.PushGroup` | static/index.html:568-574 | one accepted value: its bits join the pending ones without loss while they fit 32 bits |
| `ConvertBits.Convert` | static/index.html:561-586 | a negative value, one from 2^from to 2^32, and one that is not a group once wrapped to 32 bits is refused; otherwise, for every pair of shiftable widths, each output group is a slice of the number that the input up to it spells, wrapped to 32 bits, and the rest is padded or refused; at every length at which the accumulator can hold what is pending the groups spell the input bits, and without padding the conversion fails exactly on leftover bits that are too many or not zero |
| `ConvertBits.WrapStep` | static/index.html:569 | shifting a wrapped number and adding a group wraps the number with the group appended: no wrap is ever lost or counted twice |
| `ConvertBits.EmittedStep` | static/index.html:568-574 | the groups that one input value completes are slices of the word at that point, and the earlier ones stay |
| `ConvertBits.NarrowNeverTooLong` | static/index.html:561-586 | widths that sum to 33 or less never fill the accumulator |
| `ConvertBits.RoundTrip` | static/index.html:561-586 | to narrower groups with padding and back without never fails and restores the data |
| `ConvertBits.BytesThroughSymbols` | static/index.html:561-586 | bytes to five-bit symbols and back are the same bytes |
| `Base58.MulAddNumber` | static/index.html:624-635 | the inner loop multiplies the number by 256 and adds the byte |
| `Base58.Multiply` | static/index.html:625-630 | the digits after one pass, and the carry left over |
| `Base58.DigitsCorrect` | static/index.html:622-635 | the digits denote the big-endian number, with no leading zero digit unless it is zero |
| `Base58.Encode` | static/index.html:614-645 | a one for every leading zero byte, then the digits, most significant first |
| `Base58.EncodedDecodes` | static/index.html:614-645 | decoding gives the bytes after the zeros, behind as many zeros as there are leading ones |
| `Base58.RoundTrip` | static/index.html:614-645 | the encoding decodes to the bytes if and only if some byte is not zero |
| `Base58.AlphabetIs` | static/index.html:612-612 | the alphabet is the digits and letters without 0, I, O and l, in ascending order |
| `Base58.DigitsUnique` | static/index.html:622-635 | a number has one list of digits without a leading zero |
| `Base58.EncodedExample` | static/index.html:614-645 | 572e4794 is encoded as 3EFU7m |
| `HexBytes.LittleOfPut` | static/index.html:446-471 | reading a printed number gives it modulo its width |
| `HexBytes.PutOfLittle` | static/index.html:446-471 | printing a number that was read gives the same digits |
| `HexBytes.PutWordIsLittle` | static/index.html:2760-2765 | shifting and masking prints the little-endian bytes |
| `HexBytes.NumberIdempotent` | static/index.html:2081-2081 | rounding to a JavaScript number twice is rounding once |
| `HexBytes.NumberOf64` | static/index.html:2081-2081 | a 64-bit value rounds to 2^64 exactly from 2^64 - 1024 on |
| `HexBytes.NumberNearest` | static/index.html:2081-2081 | a 64-bit value becomes a JavaScript number than which none is nearer |
| `HexBytes.NumberTies` | static/index.html:2081-2081 | of two equally near ones it becomes the even one |
| `TxFormat.TakeVarIntPut` | static/index.html:2711-2726 | a printed count reads back, whatever follows |
| `TxFormat.VarIntForms` | static/index.html:473-480 | the four forms on the wire, by their first byte and the bytes that follow |
| `TxFormat.TakeFrontPut` | static/index.html:2023-2111 | the printed header, inputs and outputs read back; marker and flag are told from an input count |
| `TxFormat.TakeTxPut` | static/index.html:2017-2143 | every printed transaction parses to itself and leaves the rest |
| `TxDecoder.ByteReader.ReadBytes` | static/index.html:437-444 | reads exactly the next bytes and moves past them, or fails at the end |
| `TxDecoder.ByteReader.ReadLittle` | static/index.html:446-471 | reads a little-endian number |
| `TxDecoder.ByteReader.ReadVarInt` | static/index.html:473-480 | reads a count in the form its first byte says |
| `TxDecoder.ReadInputs` | static/index.html:2041-2069 | the loop reads what the grammar says |
| `TxDecoder.ReadOutputs` | static/index.html:2071-2111 | the loop reads what the grammar says |
| `TxDecoder.ReadWitnesses` | static/index.html:2113-2127 | every input gets its own witness |
| `TxDecoder.ReadFront` | static/index.html:2017-2111 | version, marker, inputs and outputs are read as the grammar parses them, with the same failures and the same rest |
| `TxDecoder.DecodeTransaction` | static/index.html:2017-2208 | the decoder computes the parse of the grammar, its failures and its weight |
| `TxDecoder.ReversedAt` | static/index.html:482-486 | an id is shown with its bytes in opposite order |
| `TxExamples.ExampleDecodes` | static/index.html:2017-2270 | the digits of one transaction with every kind of field, what is decoded from them, its weight, and the digits hashed for its id |
| `TxId.LengthsAgree` | static/index.html:2224-2226 | the re-encoded length is the canonical one if and only if it is below 253 or its two bytes are equal |
| `TxId.LongLength` | static/index.html:2224-2226 | a length above ffff is printed as fd and its digits |
| `TxId.StrippedIsLegacy` | static/index.html:2210-2270 | the digits hashed are the serialisation without marker, flag and witness if and only if all lengths are such |
| `TxId.HashedIsLegacy` | static/index.html:2210-2270 | what is hashed for a printed transaction is its legacy form if and only if it is in that form already or all lengths are such |
| `TxId.LongScriptMisprinted` | static/index.html:2233-2237 | a valid SegWit transaction with a script of 253 bytes whose id is computed from other digits |
| `TxId.StripInputs` | static/index.html:2222-2239 | the loop prints every input again |
| `TxId.StripOutputs` | static/index.html:2241-2256 | the loop prints every output again |
| `TxId.DigitsToHash` | static/index.html:2210-2270 | the second reading never fails, and prints the stripped form for SegWit and the input itself otherwise |
| `TxId.PrintedDecodes` | static/index.html:2113-2160 | a printed transaction decodes to itself, with weight three times the stripped length plus the total |
| `PsbtExtractor.DecodedRanges` | static/index.html:2017-2143 | what the decoder yields is in the ranges the printer needs |
| `PsbtExtractor.PrintValue` | static/index.html:2824-2829 | eight little-endian bytes of a value |
| `PsbtExtractor.PrintWitness` | static/index.html:2841-2847 | a witness in its printed form, or a failure when a length does not fit |
| `PsbtExtractor.CheckFinalize` | static/index.html:2684-2706 | no if and only if some input has neither a script signature, nor a witness, nor a partial signature |
| `PsbtExtractor.ExtractTransaction` | static/index.html:2734-2878 | fails exactly when some input has nothing to finalise it or a length does not fit; otherwise what it prints reads back as the unsigned transaction with, for every input, the final script and witness, or else the signature and the key of the first partial signature, in that order, pushed or stacked |
| `HalfLengths.WholeTxPrints` | static/index.html:2808-2809 | with whole bytes in every script signature that is the wire format |
| `HalfLengths.OddReadsBack` | static/index.html:2800-2809 | a script signature with an odd number of digits never reads back as an empty one |
| `PsbtExtractor.PushLengths` | static/index.html:2800-2806 | a script signature made of pushes is not empty, and has an odd number of digits only when a push has 256 bytes or more |
| `PsbtExtractor.ExtractionDecodes` | static/index.html:2734-2878 | decoding the extracted digits gives the unsigned transaction with its final scripts and witnesses if and only if there is an input and no partial signature was used; the values survive if and only if they are below 2^64 |
| `PsbtExtractor.ExtractionShown` | static/index.html:2734-2878 | what is read back in every case, pushes and witnesses made of partial signatures included: the extracted transaction, with values modulo 2^64 |
| `PsbtExtractor.ExtractionReadsBack` | static/index.html:2734-2878 | the same for every extraction whose pushes have fewer than 256 bytes: version, lock time, SegWit form, ids, scripts, stacks, values and output scripts, field by field |
| `PsbtExamples.NoInputsFails` | static/index.html:2734-2878 | a transaction without inputs that decodes and is extracted, and whose extraction does not decode |
| `PsbtExamples.ValuePrintedAsZero` | static/index.html:2824-2829 | every value from 2^64 - 1024 on comes back as zero |
| `PsbtExamples.PartialUsed` | static/index.html:2797-2806 | with a partial signature in place of final fields everything else is met, the pushes of signature and key are read back as the script, and that is not what was signed |
| `Paths.HexTable` | src/hex.c:20-46 | the lookup table accepts exactly the hexadecimal characters |
| `Paths.IsAllHex` | src/hex.c:48-56 | yes if and only if every character is one |
| `Paths.NamedRoutes` | src/router.c:21-53 | each fixed name leads to its own page and nothing else does |
| `Paths.Routes` | src/router.c:54-94 | 64 hex characters, with or without tx/, lead to a result and an even number of at least 164 to a broadcast, and nothing else does |
| `Paths.PassesIff` | src/endpoints.c:627-650 | a path passes if and only if it has fewer than 64 characters after the slash or only hex characters, not counting tx/ |
| `Paths.ValidateHexPath` | src/endpoints.c:627-650 | the HTTP/2 validator passes exactly short content, transaction lookups and hexadecimal content |
| `Paths.ValidatePathEarly` | src/connection.c:47-120 | the HTTP/1.1 validator finds the path in the request line and passes it by the same rule |
| `Paths.ValidatorsAgree` | src/connection.c:93-119 | both validators give the same verdict on every path |
| `Paths.RoutedPasses` | src/router.c:11-94 | every path routed to anything but an error or an ACME challenge passes |
| `Paths.PassingRoutes` | src/router.c:11-94 | a passing path of 64 or more characters routes only to a result, a broadcast or an error |
| `Paths.AcmePasses` | src/router.c:54-58 | an ACME challenge passes if and only if it is shorter than 64 characters |
| `Paths.LongAcmeRefused` | src/router.c:54-58 | every ACME challenge with a token of 37 characters or more is routed and refused by both validators |
| `Paths.LongAcmeExample` | src/router.c:54-58 | one of 64 characters |
| `BracketScan.ExtractBracketed` | src/rpc.c:464-488 | copies what the scan covers, cut to the result buffer |
| `BracketScan.WalkPieces` | src/rpc.c:464-488 | over bracketed text the scan counts the brackets of what it sees, and stops early exactly when that gets to zero |
| `BracketScan.ScanExactIff` | src/rpc.c:464-488 | for all bracketed text and whatever follows it, the exact condition on what the scan sees for it to stop at the closing bracket |
| `JsonScan.BracketScanIff` | src/rpc.c:464-488 | the same for every JSON object and array, with the number of strings and names that end in an escaped backslash |
| `JsonScan.BracketScanExact` | src/rpc.c:464-488 | without such strings the scan stops at the end of the value whatever follows |
| `JsonScan.OddMisleads` | src/rpc.c:464-488 | after an odd number of them it does not, whatever follows, unless nothing does |
| `JsonScan.EvenIffExact` | src/rpc.c:464-488 | for a value without brackets of its own kind inside, the scan is exact if and only if the number is even or nothing follows |
| `JsonScan.ExtractValue` | src/rpc.c:464-488 | the loop returns the value when the buffer has room and the scan sees it right, in particular without such strings; with room for more, only then |
| `JsonScan.LoneEscapeMisleads` | src/rpc.c:464-488 | a lone such string is scanned to the end of all text without a quote |
| `JsonScan.EscapedBackslashMisleads` | src/rpc.c:464-488 | the shortest failure |
| `JsonScan.EscapesCancel` | src/rpc.c:464-488 | two such strings in a row are scanned right |

## Left out

- Callbacks that run inside callbacks: nghttp2 and libevent deliver one event at a time here, and a freed handle delivers none.
- The HTTP/2 stream list is a sequence in its connection; its links are not modelled (the connection and request lists are linked nodes).
- Hash chains are sequences; the pointer-to-pointer edits inside a chain are removals from a sequence. The FNV hash is any function.
- ConvertBits.Convert: widths of 32 bits and more, which JavaScript reduces when it shifts, are not part of this model.
- TokenBucket, RateTable and RateLimiter use real numbers for C doubles, so rounding is not modelled. The hash of an address and the parsing of its text are not part of this model.
- TxDecoder reads even strings of hexadecimal digits: white space, odd digits and characters that parse to NaN are not part of this model, and neither are the script, address and standardness fields of the decoded transaction.
- PsbtExtractor takes the decoded key-value records as they are; parsing the PSBT container is not part of this model.
- SHA-256 is not modelled: the statements are about what is hashed.
- HeaderReader does not include the size limit and the promotion that come before the search; promotion is in Worker. Body reading and pipelined requests are not part of this model.
- Rpc takes the HTTP status, the presence of a body and the parsed result of a reply as inputs; the success and failure totals are not kept.
- ResponseBuffer and Rpc: size_t overflow is not modelled.
- Master takes the answers of fork and waitpid as inputs; running out of memory for the draining list and the configuration file are not part of this model, and the time-outs of the shutdown are a bounded number of answers.
- Worker: accept errors of the listener, which end the event loop by themselves, and the request counters are not part of this model. The verdicts of the access list and the rate limiter are inputs there.
- IpAcl starts from parsed addresses; reading the list files is not part of this model.
- src/buffer.c and the line reader of src/reader.c, which nothing calls, and src/network.c.
- TLS, static files, metrics, health and log output, configuration, ACME renewal, the other pages and the duplicate decoder in static/broadcast.html.
- Ordinals, BRC-20 and Atomicals detection of the page: heuristics for which the repository states no rule that they could be held against.
