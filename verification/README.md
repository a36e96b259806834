# Table lease protocol: model and proofs

A server lends routing tables, one per (address family, interface, address), for a limited time. It keeps a bitmap
per family (1 means free) as an index over lease rows in a database. Clients request, renew and release leases and
keep three policy rules in the kernel that point at their table.

The model has four layers.

* **Bitmap and rows as the server changes them.** `Words` reasons about 32-bit words, `SlotIndex` about
  shift and mask as numbers, `LeaseTypes` about the integer widths. `TableServer` is the server process: arrays of words flipped in place, a lease store whose statements may
  fail, the handlers, the sweep and the start-up. Every method is proved against a step of `ServerModel`, where a
  map is just its set of free slots.
* **What the server promises.** `ServerInvariant` proves that bitmap and unexpired rows agree after every step,
  `ServerProperties` what one step does and where the code leaks a table, `ServerRuns` whole runs. `LeaseService` is
  an abstract lending service with an exclusion theorem about its log alone; `ServerRefinement` proves that every
  run of the server is one of its runs.
* **The client.** `ClientModel` is its state machine, `TableClient` the process whose callbacks change fields step by
  step, `ClientProperties` the retry limit, the renewal time and the rule installation, and `ClientOutcomes` what it
  prints and sends, in the numbers of the protocol. `PolicyRouting` and
  `RuleSelection` say which tables the kernel consults.
* **The system.** `LeaseSystem` puts one server, its request queue, any number of clients with reply queues and one
  clock together; messages may be lost, processes may crash, the server may sweep and restart at any time.
  `SystemSafety` proves lease exclusion for every run, `SystemRules` carries it over to the rules, `EarlyBegin` shows
  that its one restriction on clients is needed, `TableReadBack` for which table ranges exclusion holds, and
  `SystemRouting` which tables the kernel consults in the states that are reached. `PartialRestart` and
  `LateReply` show what a restart that misses rows and a reply that is read late can do. `SystemTraces` has the pieces
  of the runs that these modules build.

Everything is proved for all inputs, runs and reachable states; there is no bound on the number of clients or steps.

## Assumptions, and where the code departs from its intent

* The clock fits: `now + table_timeout < 2^31` (`LeaseTypes.ClockFits`), 68 years of uptime. The columns are written
  through `sqlite3_bind_int`; `ServerProperties.FreshLeaseIsDeadIff` shows that this is exactly what is needed.
* The configuration stays the same across restarts and the database starts empty; rows then stay in range, which
  `release_table` needs because it does not check its index.
* A restart's SELECT comes to every unexpired row. `main` ignores its result, and the result loop takes an error for
  the end. `ServerInvariant.RestartAgreesIff` says exactly when bitmap and rows still agree, and
  `PartialRestart.RestartIsSafeIff` that exclusion needs it: a row that is not read is lent again.
* A release of a row whose bit is already free marks a table taken that has no row, and so does a sweep whose result
  loop ends early and whose DELETE then removes the rows it has not read. The code is kept as it is: `StepLeaksIff` and
  `RunLeaksIff` prove that nothing else leaks, whatever fails. Exclusion does not depend on it.
* With fewer than 32 tables there is no word and nothing can be lent (`FirstRequestIff`). Safety needs no lower
  bound; `ConservationIff` does.
* A client process may begin unless an earlier process of its key has a request queued ahead of a release
  (`LeaseSystem.Possible`). Messages carry no nonce, so without this exclusion fails (`EarlyBegin`).
* A reply read after its expiry makes the renewal delay wrap (`RenewsInTimeIff`, `LateReplyDelay`); rules are not
  rewritten when a later reply names another table (`RulesFollowTableIff`). The rule theorems hold for the runs in which
  no such reply is read, exactly the ones that keep the rules right (`SystemRules.RulesThroughoutIff`);
  `LateReply.LateReplySharesRules` is a run that is not one of them.
* The server writes table numbers as 64-bit JSON integers, the client reads them with `json_object_get_int`, which
  stops at 2^31 - 1. Start-up accepts ranges beyond that, for which two clients can hold one number: offset 2147483640
  with 64 tables is one. `TableReadBack.ExclusionIff` proves the exact condition, `Config.ReadsBack`, on which the
  system theorems rely.
* The client's documentation gives `-r` as sending a release. The code stores that command and never reads it: the
  first message is always a request (table_allocator/client/src/table_allocator_client.c:307 and 433).
* `main` treats a missing netlink socket of a non-IPv4 client as fine, but the first accepted reply uses that socket
  (table_allocator/client/src/table_allocator_client.c:180-182 and 598-599). Rules are modelled for IPv4 clients; for
  other families only the lease part of the client is meant.

## Model

| member | source | states |
|---|---|---|
| Words.Ffs | table_allocator/server/src/table_allocator_server_clients.c:45-46 | index of the lowest 1 bit of the word plus one, 0 exactly for the zero word |
| Words.FlipWordToggles | table_allocator/server/src/table_allocator_server_clients.c:74-80 | XOR with one shifted bit moves exactly one slot in or out of the free set that the words represent |
| Words.FirstWordHasLowest | table_allocator/server/src/table_allocator_server_clients.c:40-50 | skipping zero words and taking the lowest bit of the first other one finds the least free slot of the whole map |
| SlotIndex.ShiftAndMask | table_allocator/server/src/table_allocator_server_clients.c:69-72 | the shift by five and the mask 0x1F of a 32-bit word are quotient and remainder by 32 of the number that the word stands for; the server methods index through it |
| SlotIndex.Word | table_allocator/server/src/table_allocator_server_clients.c:67-67 | every 32-bit slot number is the number of one word |
| LeaseTypes.WrapCheckMeansNoWrap | table_allocator/server/src/table_allocator_server.c:235-240 | the start-up check passes exactly when no table number of the range wraps |
| LeaseTypes.AcceptedIff | table_allocator/server/src/table_allocator_server.c:212-240 | start-up takes exactly the configurations with three positive values, a timeout up to 65535 and a last table number below 2^32 |
| LeaseTypes.WordsCoverTables | table_allocator/server/src/table_allocator_server.c:57-68 | the words cover all tables exactly when there are none or at least 32; below 32 there is no word at all |
| LeaseTypes.SlotRoundTrip | table_allocator/server/src/table_allocator_server_clients.c:225-234 | ffs index to table number to slot comes back to the same bit, inside the words, never table 0 |
| LeaseTypes.TableRoundTrip | table_allocator/server/src/table_allocator_server_clients.c:63-72 | an in-range table number has one of the first num_tables slots, and allotting that slot names it again |
| LeaseTypes.SlotInjective | table_allocator/server/src/table_allocator_server_clients.c:67-72 | the wrapping subtraction of the offset never maps two table numbers to one bit |
| LeaseTypes.ReadBackIff | table_allocator/shared/src/table_allocator_shared_json.c:191-195 | a table number above 2^31 - 1 is read as that limit: clients can tell all tables apart, and know each by its number, exactly when the last one fits |
| TableServer.NewTableMap | table_allocator/server/src/table_allocator_server.c:44-51 | a fresh map of all-ones words represents all slots as free |
| TableServer.TakeLowest | table_allocator/server/src/table_allocator_server_clients.c:40-50 | the scan loop, proved to take exactly the least free slot, or nothing when every word is zero |
| TableServer.Server.AllocateTable | table_allocator/server/src/table_allocator_server_clients.c:27-58 | takes the least free slot of the family; its index, or 0 when there is none below the limit |
| TableServer.Server.ReleaseTable | table_allocator/server/src/table_allocator_server_clients.c:60-81 | flips the table's slot; the bound it does not check is its precondition |
| TableServer.Server.SetTable | table_allocator/server/src/table_allocator_server_clients.c:83-107 | flips the table's slot, ignored beyond the last word |
| TableServer.Server.IsTableFree | table_allocator/server/src/table_allocator_server_clients.c:109-137 | true exactly when the table's slot is inside the words and free |
| TableServer.Server.ReleaseDeadLease | table_allocator/server/src/table_allocator_server_clients.c:139-149 | the table's slot is free afterwards, whether it was or not |
| TableServer.LeaseStore.InsertTable | table_allocator/server/src/table_allocator_server_sqlite.c:72-106 | a row under the primary key, replacing one that is there; nothing on failure |
| TableServer.LeaseStore.GetTable | table_allocator/server/src/table_allocator_server_sqlite.c:108-130 | the table of some row of the key, 0 only when there is none |
| TableServer.LeaseStore.RemoveTable | table_allocator/server/src/table_allocator_server_sqlite.c:132-158 | removes every row of the key and no other; nothing on failure |
| TableServer.LeaseStore.UpdateLease | table_allocator/server/src/table_allocator_server_sqlite.c:160-184 | moves the expiry of the row with that family and table; nothing on failure |
| TableServer.LeaseStore.SelectByLease | table_allocator/server/include/table_allocator_server_sqlite.h:59-77 | dead rows, or alive ones, each at most once; all of them unless a step fails first |
| ServerModel.RowTable | table_allocator/server/src/table_allocator_server_sqlite.c:108-130 | with one row a key, the SELECT's answer is the key's table, and 0 means exactly that it has none |
| TableServer.Server.RenewLease | table_allocator/server/src/table_allocator_server_clients.c:202-223 | the renewing half: taken bit, moved expiry, reply only if the UPDATE went through |
| TableServer.Server.AllotLease | table_allocator/server/src/table_allocator_server_clients.c:225-245 | the allotting half, including the give-back when the INSERT fails |
| TableServer.Server.HandleRequest | table_allocator/server/src/table_allocator_server_clients.c:166-246 | on the words and the rows, a request does what the set-level step Request says, and the rows stay in range with one a key |
| TableServer.Server.HandleRelease | table_allocator/server/src/table_allocator_server_clients.c:248-267 | on the words and the rows, a release does what the set-level step Release says, keeping the rows in range |
| TableServer.Server.Receive | table_allocator/server/src/table_allocator_server_sockets.c:94-116 | dispatch on the command: the request's reply, (0, 0) for a release, silence otherwise |
| TableServer.Server.ReleaseDeadLeases | table_allocator/server/src/table_allocator_server_sqlite.c:202-206 | the result loop of the sweep, row by row |
| TableServer.Server.SetTables | table_allocator/server/src/table_allocator_server_sqlite.c:246-250 | the result loop of the start-up, row by row |
| TableServer.Server.DeleteDeadLeases | table_allocator/server/src/table_allocator_server_sqlite.c:186-223 | the sweep on the words and the rows, whichever of its statements fail and wherever its result loop ends |
| TableServer.Server.BuildTableMap | table_allocator/server/src/table_allocator_server_sqlite.c:225-254 | from all-ones words, exactly the slots of the alive rows that were read are taken, wherever the loop ends |
| TableServer.Server.constructor | table_allocator/server/src/table_allocator_server.c:53-103 | all slots of the enabled families free, whatever the database holds |
| ServerModel.FlippedAlongIsTaken | table_allocator/server/src/table_allocator_server_sqlite.c:246-250 | the XOR fold over the alive rows clears exactly their bits, because no primary key comes twice |
| ServerModel.FreedAlongIsFreed | table_allocator/server/src/table_allocator_server_sqlite.c:202-206 | the sweep's loop frees exactly the slots of the dead rows, in whatever order they come |
| ServerInvariant.StepKeepsInvIff | table_allocator/server/src/table_allocator_server_clients.c:139-275 | a step keeps: unexpired rows have their bit clear, rows are in range and one a key, expiries are bounded; whichever statements fail, except exactly a start-up that did not come to some unexpired row |
| ServerInvariant.StartRebuilds | table_allocator/server/src/table_allocator_server.c:354-361 | after a start-up a bit is clear exactly when an unexpired row that was read has it |
| ServerInvariant.RestartAgreesIff | table_allocator/server/src/table_allocator_server.c:354-361 | agreement survives a restart exactly when its SELECT came to every unexpired row; the ignored result matters |
| ServerProperties.NewLease | table_allocator/server/src/table_allocator_server_clients.c:225-245 | granted exactly when the INSERT works and a table is free; the lowest one, no other bit or row changes, a replaced row had expired |
| ServerProperties.RefusalRollsBack | table_allocator/server/src/table_allocator_server_clients.c:225-241 | a refused new lease leaves all rows and all in-range bits, and takes at most one bit above the limit |
| ServerProperties.ExhaustionTakesPadding | table_allocator/server/src/table_allocator_server_clients.c:40-57 | when no table is left, each refused request takes exactly the lowest bit that the last word still has above the limit |
| ServerProperties.Renewal | table_allocator/server/src/table_allocator_server_clients.c:197-223 | a key with a row gets the same table again, no further one, and its expiry never goes back |
| ServerProperties.RequestTwiceIsOnce | table_allocator/server/src/table_allocator_server_clients.c:197-223 | asking again in the same moment gives the same answer and changes nothing |
| ServerProperties.SweepIsExact | table_allocator/server/src/table_allocator_server_sqlite.c:186-223 | after a complete sweep no expired row is left, live rows and bits are untouched, exactly the expired rows' tables have become free, and a second sweep does nothing |
| ServerProperties.ReleaseIsExact | table_allocator/server/src/table_allocator_server_clients.c:248-267 | exactly the key's row goes and exactly its bit flips |
| ServerProperties.ReleaseTwiceIsOnce | table_allocator/server/src/table_allocator_server_clients.c:253-257 | releasing again succeeds and changes nothing |
| ServerProperties.CommandNumbers | table_allocator/server/src/table_allocator_server_sockets.c:94-116 | command 0 is answered with the table the key then has, command 1 with table 0 exactly when it then has none, any other not at all |
| ServerProperties.FreshLeaseIsDeadIff | table_allocator/server/src/table_allocator_server_sqlite.c:86-86 | a fresh lease is stored as already dead exactly when its expiry does not fit the signed 32-bit column |
| ServerProperties.StepLeaksIff | table_allocator/server/src/table_allocator_server_clients.c:259-262 | of all steps, exactly a release of a row whose bit is already free, and a sweep that deletes an expired row it has not read, mark a table taken without a row |
| ServerProperties.SweepLeaksIff | table_allocator/server/src/table_allocator_server_sqlite.c:202-213 | a sweep loses a table exactly when its DELETE removes a row with a clear bit that the result loop did not come to |
| ServerProperties.RestartMakesStale | table_allocator/server/src/table_allocator_server.c:354-361 | how a stale release comes about: after a start-up, exactly the rows that had expired or were not read have a free table |
| ServerProperties.FailedSweepMakesStale | table_allocator/server/src/table_allocator_server_sqlite.c:213-220 | the other way: after a sweep whose DELETE failed, exactly the expired rows that it read have one as well |
| ServerProperties.ConservationIff | table_allocator/server/src/table_allocator_server_clients.c:40-49 | free tables plus rows whose bit is clear make num_tables in every family exactly when nothing has leaked |
| ServerRuns.RunKeepsInv | table_allocator/server/src/table_allocator_server_clients.c:139-275 | the agreement holds after every run of requests, releases, sweeps and restarts |
| ServerRuns.RunLeaksIff | table_allocator/server/src/table_allocator_server_clients.c:248-267 | a run, restarts that miss rows included, never leaks exactly when none of its steps is such a release or such a sweep |
| ServerRuns.RunConservesIff | table_allocator/server/src/table_allocator_server_clients.c:40-49 | from an empty database, free tables plus rows that hold theirs make num_tables in every family in every state of a run exactly when none of its steps is such a release or such a sweep |
| ServerRuns.FirstRequestIff | table_allocator/server/src/table_allocator_server.c:57-68 | a first request whose INSERT works is granted exactly when there are at least 32 tables; with fewer, no request ever is |
| ServerRuns.ThreeFamilies | table_allocator/server/src/table_allocator_server.c:70-101 | leases are there for the families 0, 2 and 10 |
| ServerRuns.LiveRowSurvives | table_allocator/server/include/table_allocator_server_sqlite.h:31-32 | no step but its own release removes or shortens an unexpired row; ON CONFLICT REPLACE never evicts one |
| ServerRuns.RowLostIff | table_allocator/server/src/table_allocator_server_clients.c:197-267 | in one step a key loses its row exactly by its own release, or, once expired, by a sweep or by a new lease of its table |
| ServerRuns.LeaseIsStable | table_allocator/server/src/table_allocator_server_clients.c:197-223 | over a whole run in which the key has a row, expired or not, its row stays the same, all its replies name that table and its expiry never goes back |
| LeaseService.GrantsAreExclusive | table_allocator/server/src/table_allocator_server_clients.c:163-165 | in every log of the abstract lending service, a table goes to another key only after expiry, a release or a new grant |
| ServerRefinement.StepRefines | table_allocator/server/src/table_allocator_server_clients.c:139-275 | each server step is one action of the lending service on the unexpired leases |
| ServerRefinement.RunRefines | table_allocator/server/src/table_allocator_server_clients.c:139-275 | the replies of every scheduled run form a log that the lending service allows |
| ServerRefinement.RepliesAreExclusive | table_allocator/server/src/table_allocator_server_clients.c:166-267 | from an empty database, two replies that grant one table of a family to different keys are separated by expiry, release or a new grant |
| TableClient.Client.UpdateRules | table_allocator/client/src/table_allocator_client_netlink.c:95-164 | sends the three rules until one fails; arms the retry timer only when adding |
| TableClient.Client.ModifyRule | table_allocator/client/src/table_allocator_client_netlink.c:31-83 | adds or deletes one rule when the message can be sent |
| TableClient.Client.CheckFailCount | table_allocator/client/src/table_allocator_client.c:85-101 | counts, and at the fifth failure prints the table and stops |
| TableClient.Client.SendRequest | table_allocator/client/src/table_allocator_client.c:200-264 | records the command if it could be sent and arms the retransmission in any case |
| TableClient.Client.RequestTimeout | table_allocator/client/src/table_allocator_client.c:190-198 | a client with a table sends; one without counts first |
| TableClient.Client.SocketTimeout | table_allocator/client/src/table_allocator_client.c:267-314 | sends once the socket is open, otherwise keeps trying |
| TableClient.Client.RecvError | table_allocator/client/src/table_allocator_client.c:122-131 | counts unless leased, then closes the socket and its timers |
| TableClient.Client.RecvPartial | table_allocator/client/src/table_allocator_client.c:118-121 | a truncated message only rearms the retransmission |
| TableClient.Client.RecvReply | table_allocator/client/src/table_allocator_client.c:133-188 | expiry overwritten before the reply is judged; wrong version stops, no table retries, a table is taken |
| TableClient.Client.NetlinkRecv | table_allocator/client/src/table_allocator_client_netlink.c:277-309 | the message loop: tear-down at the first message that takes the address or link, nothing otherwise |
| ClientProperties.AtMostFiveRequests | table_allocator/client/src/table_allocator_client.c:85-101 | whatever the socket does, a client without a lease sends at most five requests |
| ClientProperties.GivesUpAtFive | table_allocator/client/src/table_allocator_client.c:85-101 | without an accepted reply it stops exactly at the fifth counted failure, having printed a single 0 |
| ClientProperties.ExactlyFiveRequests | table_allocator/client/src/table_allocator_client.c:190-198 | while sends succeed and no lease comes, requests plus a pending reopen are one more than the failures, and it gives up after exactly five requests |
| ClientProperties.LeasedClientStays | table_allocator/client/src/table_allocator_client.c:126-130 | with a table no number of failures stops it |
| ClientProperties.NeverStuck | table_allocator/client/src/table_allocator_client.c:190-264 | a running client always has a timer or a socket event that will wake it, also while its rules are incomplete |
| ClientOutcomes.OutcomeOfRun | table_allocator/client/src/table_allocator_client.c:85-101 | what a client prints and sends in a run, and whether it has ended, as functions of the events alone: the table of each reply in order or a single 0 after five failures, requests and a last release |
| ClientOutcomes.GrantIsPrinted | table_allocator/client/src/table_allocator_client.c:155-187 | a reply of version 1 and command 2 with a table: the table is printed and held, failures are forgotten, the renewal timer starts |
| ClientOutcomes.OtherDatagrams | table_allocator/client/src/table_allocator_client.c:133-153 | any other reply that parses overwrites the expiry; it ends the client exactly if its version is not 1, else the client asks again in 2000 ms |
| ClientOutcomes.BadDatagrams | table_allocator/client/src/table_allocator_client.c:116-138 | a truncated datagram puts off the next request, one that does not parse changes nothing |
| ClientOutcomes.StopsIffAddressLost | table_allocator/client/src/table_allocator_client_netlink.c:196-309 | messages stop the client, with one release, exactly when one is the DELLINK of its link or a DELADDR with its link, family 2, prefix length and no other local address; else nothing changes |
| ClientOutcomes.FailedSocketIsReopened | table_allocator/client/src/table_allocator_client.c:57-75 | a failed read stops both timers and closes the socket of every client that goes on, leased or not; then it is reopened and a request sent |
| ClientOutcomes.TimeoutAsksAgain | table_allocator/client/src/table_allocator_client.c:190-264 | a timeout below the limit sends command 0 and waits 2000 ms, also when the message cannot be sent; only a client without a table counts |
| ClientProperties.RulesConvergeIff | table_allocator/client/src/table_allocator_client_netlink.c:95-164 | over all failures and retries the installed rules are in every state a prefix of the three, complete exactly when rules_added is set, exactly when no reply named another table while a rule was in place |
| ClientProperties.RetryCompletes | table_allocator/client/src/table_allocator_client_netlink.c:85-93 | a retry whose messages go out completes the three rules |
| ClientOutcomes.RulesAreAdded | table_allocator/client/src/table_allocator_client_netlink.c:85-164 | a retry adds exactly the rules of priority 10000, 20000 and 91000 whose messages go out, and is repeated exactly while one is missing |
| ClientOutcomes.GrantAddsRules | table_allocator/client/src/table_allocator_client.c:179-182 | so does a reply with a table while rules are missing; afterwards it leaves them alone |
| ClientOutcomes.RulesAreDeleted | table_allocator/client/src/table_allocator_client_netlink.c:299-305 | losing the address deletes exactly the rules whose messages go out |
| ClientProperties.TearDownClears | table_allocator/client/src/table_allocator_client_netlink.c:299-305 | a tear-down whose messages go out leaves no rule and sends one release |
| ClientProperties.RulesFollowTableIff | table_allocator/client/src/table_allocator_client.c:179-182 | after a reply with another table the rules match the table exactly when it is the same or no rule was installed yet |
| ClientProperties.DelayIsHalfIff | table_allocator/client/src/table_allocator_client.c:166-187 | for all expiries and times, the 32-bit delay is half the remaining time exactly when the reply is not late and at most 8589935 seconds early |
| ClientProperties.RenewsInTimeIff | table_allocator/client/src/table_allocator_client.c:164-187 | the next request goes out before the expiry exactly when the reply is read before it |
| ClientProperties.LateReplyDelay | table_allocator/client/src/table_allocator_client.c:165-166 | for every lateness the difference wraps, and the delay is 2^32 ms less half the lateness, up to 8589934 seconds |
| RuleSelection.PrefixLenInverts | table_allocator/client/src/table_allocator_client.c:367-370 | the length gives the mask back exactly for contiguous masks; 33 for the zero mask |
| RuleSelection.NetworkRuleIsSubnetIff | table_allocator/client/src/table_allocator_client_netlink.c:124-126 | the network rule matches exactly the client's subnet, for all addresses, exactly when the non-zero mask is contiguous |
| PolicyRouting.FirstIsByLevel | table_allocator/client/include/table_allocator_client_netlink.h:20-22 | among any subset of clients' rules, the first matching ones are exactly those of the lowest level that has a match |
| RuleSelection.KernelConsultsIff | table_allocator/client/src/table_allocator_client_netlink.c:105-143 | whichever of their rules the clients have installed so far, a packet consults exactly: installed rules of its source address, else of its destination's subnet, else any default |
| LeaseSystem.Next | table_allocator/server/src/table_allocator_server_sockets.c:81-132 | one step of the server, its queue, the clients and the clock; keeps the rows in range and one a key |
| SystemSafety.NextKeepsInv | table_allocator/server/src/table_allocator_server_clients.c:166-267 | every step keeps each lease that is held or on its way backed by a row of its key, and replies in order of expiry |
| SystemSafety.LeaseExclusion | table_allocator/server/src/table_allocator_server_clients.c:163-165 | in every state of every run, two clients of one family that hold unexpired leases hold different tables, if the last table number fits a signed 32-bit integer |
| TableReadBack.ExclusionIff | table_allocator/shared/src/table_allocator_shared_json.c:191-195 | exclusion, and soundness, hold in every state of every run exactly when the last table number fits a signed 32-bit integer or there are fewer than 32 tables |
| TableReadBack.TablesCollide | table_allocator/shared/src/table_allocator_shared_json.c:145-145 | otherwise: the run that lends every table once ends with two unexpired leases of one number |
| SystemRules.LeaseSoundness | table_allocator/client/src/table_allocator_client.c:133-162 | in every state of every run, all unexpired leases held or under way have a row of their key with that table and no earlier expiry, under the same condition |
| SystemRules.TimelyReplyKeepsTable | table_allocator/client/src/table_allocator_client.c:155-162 | a reply read before the held lease expires names the same table and no earlier expiry |
| SystemRules.ReplySchedulesRenewal | table_allocator/client/src/table_allocator_client.c:164-187 | in a reachable state, a delivered reply arms the renewal before its expiry exactly when it has not expired |
| SystemRules.RulesThroughoutIff | table_allocator/client/src/table_allocator_client_netlink.c:95-164 | in every state of a run each client's installed rules are a prefix of the three for its table exactly when no reply that is read names another table while a rule is in place |
| SystemRules.TimelyRunKeepsRules | table_allocator/client/src/table_allocator_client.c:155-162 | reading replies before the held lease expires is enough for that |
| SystemRules.RulesAreExclusive | table_allocator/client/src/table_allocator_client_netlink.c:95-164 | in such runs installed rules name the held table, and those of two holders never a common one |
| LateReply.LateReplySharesRules | table_allocator/client/src/table_allocator_client.c:179-182 | a run from the empty system, with one reply read late, after which the rules of two lease holders name one table |
| SystemRouting.KernelConsultsLeases | table_allocator/client/src/table_allocator_client_netlink.c:105-143 | in every state of every such run, with rules still missing, the kernel consults exactly the installed rules of lowest level that match, with each client's own table |
| SystemRouting.LeasedTrafficIsSeparate | table_allocator/client/src/table_allocator_client_netlink.c:105-121 | ... packets from a lease holder's address, once it has a rule, consult only tables of clients with that address; if it is alone with it, its own table, which no other holder of the family has |
| EarlyBegin.EarlyBeginLendsTwice | table_allocator/client/src/table_allocator_client_netlink.c:299-305 | a run from the empty system after which a process that begins while its key's older request and release are queued ends up holding an unexpired lease of a table together with another |
| PartialRestart.UnreadRowIsLentAgain | table_allocator/server/src/table_allocator_server.c:354-361 | in any state, a row that a start-up does not come to is lent to a new client by some run of requests, in place of its owner's |
| PartialRestart.UnreadLeaseIsShared | table_allocator/server/src/table_allocator_server.c:354-361 | if a client holds that lease, two clients end up with unexpired leases of one table |
| PartialRestart.RestartIsSafeIff | table_allocator/server/src/table_allocator_server_sqlite.c:225-254 | while every unexpired lease is held, exclusion survives a restart in all further runs exactly when every unexpired row was read |
| ServerProperties.ReleaseLendsOn | table_allocator/server/src/table_allocator_server_clients.c:248-267 | serving a request and a release of one key lends its table to the next new key at once |

## Left out

- LeaseSystem.Next: one server and honest clients; packets of other senders are not modelled, because any local process may send a release in the name of a key.
- TableClient.Client.RecvReply: daemonising, the log and the printed line's formatting are left out; `stopped` stands for both the closing flag and a stopped event loop, which the code lets finish the current iteration.
- TableClient.Client.ModifyRule: IPv4 only, a rule is in the kernel once its message was sent; kernel errors come back in messages that the client does not read. The set holds this client's own rules, so two clients deleting one equal rule is not modelled.
- TableServer.LeaseStore.GetTable: this SELECT is assumed to run, a failure would be taken for a key without a row; which of several rows it would return is left open. The tag column is written but never read and is left out.
- RuleSelection.KernelConsultsIff: only rules of clients take part; the kernel's own rules (local, main, default) and the routes in the tables are not modelled.
- JSON text: messages are records of the numbers in it; a client reads the two of a reply through `ReadInt`.
- The lengths of the waits before the socket is opened again (100 and 200 ms) and the rules are tried again (1000 ms); that they end is an event.
- Failing `clock_gettime`, memory allocation, timer and event loop calls.
- Rows left by a different configuration, and rules left in the kernel by a client that crashed or could not send their deletion.
- The Linux scripts, packaging and configuration parsing apart from the checks on the table range.
