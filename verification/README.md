# Verified model of PI

PI is a framework for P4 control planes: a library that keeps information about P4 programs and
moves table entries between clients and targets, a P4Runtime and gNMI server on top of it, and
demonstration programs. This project models the parts of it that hold the most state and the
most arithmetic, in Dafny, and proves what they are for.

| part | modules |
|---|---|
| P4Runtime master arbitration and admission | `DeviceSpec`, `DeviceState`, `Arbitration`, `ArbitrationRuns`, `ArbitrationRoster` |
| 128-bit election ids | `WideInt`, `Hex` |
| Sorting and id assignment in the bmv2 configuration reader | `BubbleSpec`, `JsonSort`, `IdSpec`, `IdMeaning`, `IdSafety`, `IdReader`, `IdPipelines`, `ActionReader` |
| gNMI STREAM subscriptions | `Subscription`, `SubscriptionMgr`, `SubscriptionPath`, `SubscriptionRuns`, `SubscriptionPlans`, `SubscriptionDelay` |
| Integers and records on the wire, aligned memory blocks | `Wire`, `RecordWalk`, `Arena` |
| Direct resources and table entries over RPC | `DirectRes`, `DirectResRpc`, `RpcCodec` |
| Fetched table entries and action profiles | `FetchArena`, `TableFetch`, `ActProfFetch` |
| The demo router's queueing behind ARP | `BigEndian`, `ArpSpec`, `ArpRouter`, `ArpExchange` |
| Action data layout and field values | `ActionLayout`, `NetValue` |
| Field values on the command line | `HexParse`, `CliParam`, `CliGrammar` |

How the parts are built:

- Code that changes state is a class or a method with loops, proved against functions on values;
  what the code promises is proved of these functions, over all inputs or all runs. `DeviceState`,
  `ReaderState`, `Subscription`, `Manager`, `SimpleRouterMgr` and the two fetch results are such
  classes; `JsonSort` works on a linked chain of objects in place.
- A method that holds the mutex is one step. The `Write` and `SetForwardingPipelineConfig`
  handlers take it several times and are several steps, which interleave with everything else.
- Runs are sequences of events of any length in any order.
- The bytes of an integer are the host's own. The host is a parameter, of which only is asked
  that reading undoes writing; the little-endian one is shown to qualify.
- Sizes of structures are parameters. So are the clock, the datastore's scans, the hash of a name,
  the result of writing to a stream, and the IPv6 parser of the C library.

Where the code does not do what its surroundings suggest, the model follows the code, and the
property is stated with its exact condition:

- A re-arbitration to an election id that another connection holds unregisters its own
  connection, and the later cleanup evicts the other one. Role agreement holds exactly on runs
  without such a step (`Arbitration.RunGoodIff`).
- A master that changes its id and stays master tells nobody else. The other clients know the
  master's id exactly on runs without such a step (`Arbitration.RunInformedIff`).
- `found_id` in `pre_reserve_ids` is set once and for all in a call, so only the first annotated
  object of a call is held to having a free id. Reading actions, which starts from a fresh type,
  ends exactly on ids above 0xffff (`IdSafety.ReadIdsSafe`). Objects spread over pipelines take a
  call per pipeline, and there the reader also ends when a pipeline begins with an id that is
  taken, which depends on the order of the objects (`IdPipelines.ReadPipelinesSafe`,
  `IdSpec.ReservingIsOrderFreeIff`); the ids given out do not (`IdPipelines.PipelineOrderIndependence`).
- With several ids in one annotation the assertion in `request_id` can fail. It cannot if every
  listed id is reserved (`IdSafety.AssignNeverAsserts`); whether it does otherwise depends on where
  the hashes of names fall, so this goes one way only.
- A SAMPLE subscription can leave the client with an old value. A plan of subscriptions is safe
  from that at a path exactly if the last one that selects it and sends its first scan is ON_CHANGE
  (`SubscriptionPlans.PlanAgreesIff`). The timer starts passes at least 50 ms apart; the failing runs
  exist at any times of the events, as long as the run is over before a sampling interval or a
  heartbeat has gone by. After that the subscription catches up (`SubscriptionDelay.BehindOnlyBriefly`).
- A left-adjusted stream prints different 128-bit numbers alike, and no other does (`WideInt.InjectiveIff`).
- A field of bitwidth 0 keeps the whole byte (`NetValue.ModularIff`).
- The length check in `param_to_bytes` looks at a byte that is always zero
  (`CliParam.LongTextIff`), and a failed address attempt leaves the first part of the text to the
  hexadecimal parser, while an address longer than that is cut (`CliParam.AddressOrHexIff`,
  `CliParam.LongAddressIsCut`).
- The passes that allocate and retrieve direct resources go by different numbers in the message;
  they agree exactly on messages that claim their true sizes (`DirectResRpc.WalksAgreeIff`).

`dafny verify dfyconfig.toml` checks the whole project.

## Model

| member | source | states |
|---|---|---|
| `WideInt.ComparisonsAreNumeric` | proto/server/uint128.h:86-100 | the word-by-word comparisons are exactly the order of the 128-bit numbers |
| `WideInt.SameValueSameWords` | proto/server/uint128.h:78-84 | equality of both words is equality of the numbers |
| `WideInt.Uint128.AddAssign` | proto/server/uint128.h:40-46 | `+=` is addition modulo 2^128, also when the operand is the object itself |
| `WideInt.Uint128.SubAssign` | proto/server/uint128.h:59-65 | `-=` is subtraction modulo 2^128, also when the operand is the object itself |
| `WideInt.Uint128.PostIncrement` | proto/server/uint128.h:48-57 | postfix `++` returns the old number and leaves its successor modulo 2^128 |
| `WideInt.Uint128.PostDecrement` | proto/server/uint128.h:67-76 | postfix `--` returns the old number and leaves its predecessor modulo 2^128 |
| `WideInt.TwoWordSum` | proto/server/uint128.h:40-46 | the carry test `new_low < low` is right for every pair of operands |
| `WideInt.TwoWordDifference` | proto/server/uint128.h:59-65 | the borrow test `new_low > low` is right for every pair of operands |
| `WideInt.OStream.PutUint128` | proto/server/uint128.cpp:45-53 | printing appends the prefix and the digits, filled as the stream's width, fill, adjustment, base and case flags say, and restores the formatting |
| `WideInt.FilledMeans` | proto/server/uint128.cpp:45-53 | filling to a width adds what is missing in one place: behind, in front, or behind the base prefix |
| `WideInt.WordDigitsMeans` | proto/server/uint128.cpp:45-53 | a word is printed without leading zeros, all digits in the case the stream asks for |
| `Hex.DigitsAreShortest` | proto/server/uint128.cpp:45-53 | the numeral under std::hex has lower-case digits and no leading zero |
| `WideInt.ReadsBackIff` | proto/server/uint128.cpp:45-53 | the printed digits, read as hexadecimal, are the number if and only if no base prefix is shown inside them, and under a nonzero high word the low one is not left-adjusted, or has all 16 digits, or is 0 |
| `WideInt.InjectiveIff` | proto/server/uint128.cpp:45-53 | whatever the formatting state, with or without base prefixes: different numbers are printed differently if and only if the stream is not left-adjusted |
| `WideInt.PrintedAlike` | proto/server/uint128.cpp:51 | two numbers that every left-adjusted stream prints alike |
| `DeviceSpec.Find` | proto/server/pi_server.cpp:155-160 | looking up by election id finds an entry with that id, and in an ordered set finds one exactly if the id is held |
| `DeviceSpec.InsertKeepsOrder` | proto/server/pi_server.cpp:199-205 | inserting a free id keeps the order, adds just that entry, and it comes first exactly if its position is the beginning |
| `DeviceSpec.RemoveKeepsOrder` | proto/server/pi_server.cpp:217-220 | erasing keeps the order and removes just that entry |
| `DeviceSpec.NotifyAllTellsEveryone` | proto/server/pi_server.cpp:309-311 | after `notify_all` every connection's last message tells its role and the master's id |
| `DeviceSpec.NotifyOneIsEnough` | proto/server/pi_server.cpp:285-307 | telling one client is enough when all others already know their roles |
| `DeviceSpec.AddKeepsSound` | proto/server/pi_server.cpp:195-211 | adding keeps order, the limit of 16, uniqueness of streams and role knowledge, registers the connection exactly on success, and fails exactly on a full set or a held id |
| `DeviceSpec.EntryMoved` | proto/server/pi_server.cpp:213-234 | a re-arbitration that does not collide moves one entry; who is first before and after is exactly what the two iterator tests see |
| `DeviceSpec.UpdateKeepsSound` | proto/server/pi_server.cpp:213-234 | such a re-arbitration succeeds, changes only its own entry, and everyone still knows their role although usually one client is told |
| `DeviceSpec.CleanupKeepsSound` | proto/server/pi_server.cpp:236-244 | a disconnect removes just its own entry and everyone left knows their role |
| `DeviceSpec.PacketInKeepsSound` | proto/server/pi_server.cpp:178-188 | delivering a packet-in disturbs no role knowledge |
| `DeviceSpec.UpdateMasterIdIff` | proto/server/pi_server.cpp:227-232 | after a re-arbitration everyone knows the master's election id if and only if it was not a master changing its id while others are connected and staying master |
| `DeviceState.DeviceState.AddConnection` | proto/server/pi_server.cpp:195-211 | the method moves the object to the specified next state with the specified status, keeping the invariant |
| `DeviceState.DeviceState.UpdateConnection` | proto/server/pi_server.cpp:213-234 | likewise; the connection carries the new id whatever the status |
| `DeviceState.DeviceState.CleanupConnection` | proto/server/pi_server.cpp:236-244 | likewise |
| `DeviceState.DeviceState.InsertAndNotify` | proto/server/pi_server.cpp:222-233 | a taken id changes nothing and is reported; else all are told if mastership changed, only this client if not |
| `DeviceState.DeviceState.EraseAndRename` | proto/server/pi_server.cpp:217-221 | the first half of a re-arbitration: out of the set, renamed, and whether it was first |
| `DeviceState.DeviceState.ProcessStreamMessageRequest` | proto/server/pi_server.cpp:246-258 | a request reaches the device manager only from the master, and a packet is then counted |
| `DeviceState.DeviceState.SendPacketIn` | proto/server/pi_server.cpp:178-188 | a packet-in goes to the master and is counted if it was delivered |
| `DeviceState.DeviceState.NotifyAll` | proto/server/pi_server.cpp:309-311 | the loop sends every connection its notice, in order |
| `DeviceState.OnlyHolderErased` | proto/server/pi_server.cpp:217-220 | erasing by election id leaves no entry of the caller, whoever held the id |
| `Arbitration.ConnectionsStayOrdered` | proto/server/pi_server.cpp:153-162 | in every state of every run, collisions included: at most 16 connections, in strictly decreasing 128-bit order, hence distinct ids with the greatest first |
| `Arbitration.StepKeepsGoodIff` | proto/server/pi_server.cpp:195-244 | one step from a good state (every open arbitrated stream registered exactly once, every client told its true role, no failed assertion) gives a good state if and only if it is not a re-arbitration to an id another connection holds |
| `Arbitration.RunGoodIff` | proto/server/pi_server.cpp:429-496 | over every run: no assert has failed, the set is exactly the open connections (which they are, and with which ids, says `ArbitrationRoster.OpenIsRoster`), and every client was last told its true role, if and only if no client has re-arbitrated with an id held by another |
| `Arbitration.RoleAgreement` | proto/server/pi_server.cpp:285-311 | on every collision-free run, for every stream with a connection: last told to be master, being first in the set, and holding the greatest id coincide; `ArbitrationRoster.RolesFromEvents` says it of the ids the clients asked for |
| `ArbitrationRoster.ArbitrateEnrols` | proto/server/pi_server.cpp:447-483 | from a good state, an arbitration that does not collide gives an open stream the id it asks for, and a new one too unless there are 16 connections or the id is taken |
| `ArbitrationRoster.CleanEnrols` | proto/server/pi_server.cpp:236-244 | the cleanup of a closed stream takes it, and no other, out of the open connections |
| `ArbitrationRoster.OpenIsRoster` | proto/server/pi_server.cpp:429-496 | over every run: it is free of collisions if and only if its events alone say so, and then each stream holds a connection exactly if it was admitted and not cleaned up since, with the id it last asked for |
| `ArbitrationRoster.RolesFromEvents` | proto/server/pi_server.cpp:285-311 | so from the events alone: every stream with a connection was last told to be master if and only if the id it last asked for is the greatest |
| `ArbitrationRoster.StepTells` | proto/server/pi_server.cpp:195-244 | one event that does not collide sends exactly: to everyone, if another stream becomes master; else to the stream itself, if it comes in or takes another id; and packet-ins to the master |
| `ArbitrationRoster.LogIsNews` | proto/server/pi_server.cpp:285-311 | over every collision-free run the messages sent are exactly these, in order |
| `ArbitrationRoster.CollisionTellsNobody` | proto/server/pi_server.cpp:220-226 | a colliding re-arbitration sends nothing |
| `Arbitration.MasterHoldsGreatest` | proto/server/pi_server.cpp:277-283 | in a good state the master is the open stream with the greatest election id |
| `Arbitration.CollisionUnregisters` | proto/server/pi_server.cpp:217-226 | a colliding re-arbitration leaves its connection open but out of the set |
| `Arbitration.CollisionEvictsTheHolder` | proto/server/pi_server.cpp:434-437 | the cleanup after a collision erases the other connection that holds the id, and that one's own cleanup then fails the assertion |
| `Arbitration.StepKeepsInformedIff` | proto/server/pi_server.cpp:285-298 | one step keeps everyone informed of the master's id if and only if it is not a silent change of it |
| `Arbitration.RunInformedIff` | proto/server/pi_server.cpp:285-298 | on a collision-free run everyone has known the master's id throughout if and only if no change of it was silent |
| `ArbitrationRuns.StaleRun` | proto/server/pi_server.cpp:227-232 | a run of three events from the start after which the master has id 7 and the other client was last told 5 |
| `ArbitrationRuns.CollidingRun` | proto/server/pi_server.cpp:217-226 | a run from the start that collides in its third event, then evicts the other connection and fails the assertion |
| `Arbitration.HandlersAreTraced` | proto/server/pi_server.cpp:358-378 | with the size check and the master check as separate steps of an interleaved run, a handler past both saw an empty set without claiming an id, or claimed the id that was master's at its check |
| `ArbitrationRuns.HandlersFollow` | proto/server/pi_server.cpp:358-378 | under every interleaving a handler gets past its checks exactly if there was no connection and it claimed no id, or its claim (zero if it made none) was the greatest id at its second check; nothing else moves it |
| `ArbitrationRuns.AdmissionOverRuns` | proto/server/pi_server.cpp:246-283 | over every run, what was handed to the device manager is exactly, in order and each once, the messages of open streams holding the greatest id and the requests of handlers past their checks, once a pipeline is set; each such handler saw an empty set or the master's id; none delivers twice; `pkt_out_count` counts the packets modulo 2^64 |
| `ArbitrationRuns.ManagerIff` | proto/server/pi_server.cpp:172-176 | there is a device manager if and only if an earlier event delivered a pipeline configuration |
| `Arbitration.AdmittedIff` | proto/server/pi_server.cpp:368-373 | a handler whose two checks are not interrupted is admitted if and only if the set is empty and no id is claimed, or the claimed id (zero if absent) is the master's |
| `Arbitration.PacketInsAreCounted` | proto/server/pi_server.cpp:178-188 | over every run `pkt_in_count` counts the packets delivered, modulo 2^64 |
| `ArbitrationRuns.PacketInsGoToTheMaster` | proto/server/pi_server.cpp:178-188 | over every run, the packet-ins sent to clients are one for each packet from the device while anyone is connected, in order, each to the stream holding the greatest id at that instant |
| `Arbitration.AcceptedIdIsGreatest` | proto/server/pi_server.cpp:265-269 | the id a master check accepted was the greatest of all connections at that step |
| `BubbleSpec.StrcmpIsTotalOrder` | src/config_readers/bmv2_json_reader.c:243 | byte-wise string comparison is a total order |
| `BubbleSpec.StrcmpOrder` | src/config_readers/bmv2_json_reader.c:243 | a name comes first exactly if it is a prefix of the other or has the smaller byte where they first differ |
| `BubbleSpec.PassEndsOnGreatest` | src/config_readers/bmv2_json_reader.c:236-252 | one run of the inner loop ends on an object no smaller than all others |
| `BubbleSpec.PassKeepsTail` | src/config_readers/bmv2_json_reader.c:236-252 | a sorted tail of greatest objects is left as it is |
| `BubbleSpec.PassIsStable` | src/config_readers/bmv2_json_reader.c:243-249 | a pass keeps the order of objects with equal names |
| `BubbleSpec.PassSettlesOneMore` | src/config_readers/bmv2_json_reader.c:232-254 | each pass puts one more object in its final place |
| `BubbleSpec.SortedIsUnique` | src/config_readers/bmv2_json_reader.c:228-255 | sorted arrangements of the same distinctly named objects are equal |
| `JsonSort.Swap` | src/config_readers/bmv2_json_reader.c:244-248 | relinking two neighbours through the slot before them exchanges just these in the `next` chain |
| `JsonSort.StepKeep` | src/config_readers/bmv2_json_reader.c:250-251 | where no swap is due the walk goes on with a slot that is right again, whether or not it was stale |
| `JsonSort.BubbleOnce` | src/config_readers/bmv2_json_reader.c:233-252 | the inner loop turns the chain into one pass of the specification; the stale slot left after a swap is never written through |
| `JsonSort.SortJsonArray` | src/config_readers/bmv2_json_reader.c:228-255 | the sort terminates and leaves the `next` chain a stable rearrangement of the input in strcmp's order of the names: of two, the first is a prefix of the other or has the smaller byte where they first differ |
| `IdSpec.FullId` | src/config_readers/bmv2_json_reader.c:181-183 | an id is nonzero, has its type in the top byte and its 16-bit slot below |
| `IdSpec.FirstFreeSkipsOnlyReserved` | src/config_readers/bmv2_json_reader.c:191 | probing stops at the first free slot cyclically from the hash, and fails only if all 65536 are reserved |
| `IdSpec.FirstFreeFinds` | src/config_readers/bmv2_json_reader.c:191 | a free slot of the type, wherever it is, is always found |
| `IdSpec.PreReserveIff` | src/config_readers/bmv2_json_reader.c:134-164 | whatever was reserved before: with at most one id each, reserving goes through if and only if all ids fit and the first annotated object's id is free, and then adds exactly the annotated ids |
| `IdSpec.ReservingIsOrderFreeIff` | src/config_readers/bmv2_json_reader.c:134-164 | its outcome is the same for every order of the objects if and only if their ids are all free, or all taken, or one does not fit |
| `IdSpec.OrderCanMatter` | src/config_readers/bmv2_json_reader.c:158-162 | with id 5 taken, asking for 5 then 6 ends the reader and asking for 6 then 5 does not |
| `IdSpec.TooBigIdExits` | src/config_readers/bmv2_json_reader.c:148-151 | an annotated id above 0xffff ends the reader, wherever it stands |
| `IdMeaning.ScanStopsAt` | src/config_readers/bmv2_json_reader.c:145-158 | for annotations of any length: the scan of an object stops at the first listed id that is above 0xffff, with an error, or free, which it reserves |
| `IdMeaning.ScanFindsNone` | src/config_readers/bmv2_json_reader.c:145-158 | it finds none if and only if all listed ids fit and are taken |
| `IdMeaning.ReserveOneMore` | src/config_readers/bmv2_json_reader.c:134-164 | reserving goes object by object, and ends the reader exactly at an object that meets an id above 0xffff, or has only taken ids while nothing was reserved in this call |
| `IdSpec.OrderIndependence` | src/config_readers/bmv2_json_reader.c:257-273 | for distinct names and at most one id each, every permutation of the input gives the same outcome and the same name-to-id assignment |
| `IdSafety.AssignSafe` | src/config_readers/bmv2_json_reader.c:198-215 | requests are all served if and only if slots suffice; then the ids are new, distinct and of the type |
| `IdSafety.ReadIdsSafe` | src/config_readers/bmv2_json_reader.c:257-273 | reserve, sort, allocate: exits exactly on an id above 0xffff, never fails an assertion, succeeds exactly if also at most 65536 objects, and then gives distinct nonzero ids of the type |
| `IdSafety.AnnotationHonoured` | src/config_readers/bmv2_json_reader.c:204-212 | an annotated id goes to the first object in name order that asks for it |
| `IdMeaning.RequestGives` | src/config_readers/bmv2_json_reader.c:203-213 | an object gets the first listed id not given out yet, which is asserted to be reserved |
| `IdMeaning.RequestGenerates` | src/config_readers/bmv2_json_reader.c:185-215 | with none listed, or all given out, it gets the first free slot cyclically from the hash of its name on |
| `IdMeaning.EveryoneGetsTheirs` | src/config_readers/bmv2_json_reader.c:268-273 | over a whole assignment, annotations of any length: every object gets one or the other of what the objects before it have left |
| `IdMeaning.OrBits` | src/config_readers/bmv2_json_reader.c:206 | each bit of the bitwise or is set exactly if it is in one of the two |
| `IdSafety.SeveralIdsCanAbort` | src/config_readers/bmv2_json_reader.c:207 | with two ids in one annotation the assertion can fail: a concrete pair of objects |
| `IdSafety.AssignNeverAsserts` | src/config_readers/bmv2_json_reader.c:198-215 | for annotations of any length and ids of any size: if after the reservation every listed id is reserved and only reserved ids are allocated, no assertion fails and the ids given out are new and distinct |
| `IdPipelines.ReserveAll` | src/config_readers/bmv2_json_reader.c:438-447 | the loop over the pipelines reserves in each with the flag down again |
| `IdPipelines.ReservePipelinesIff` | src/config_readers/bmv2_json_reader.c:438-447 | reserving over pipelines goes through if and only if all ids fit and no pipeline's first annotated id is one an earlier pipeline asks for |
| `IdPipelines.ReadPipelinesSafe` | src/config_readers/bmv2_json_reader.c:428-451 | the whole read over pipelines: it exits exactly on that condition, never fails an assertion, succeeds exactly if also at most 65536 objects, and then gives distinct nonzero ids of the type |
| `IdPipelines.OrderWithinAPipelineMatters` | src/config_readers/bmv2_json_reader.c:438-447 | two inputs that differ in the order within one pipeline, one of which ends the reader |
| `IdPipelines.PipelineOrderIndependence` | src/config_readers/bmv2_json_reader.c:428-451 | with distinct names and at most one id each, any two arrangements over pipelines that both do not end the reader give the same outcome |
| `ActionReader.ReadActions` | src/config_readers/bmv2_json_reader.c:257-273 | reserve, sort in place and request on the linked list give the specified ids; with distinct names and at most one id each, every arrangement of the list gives the same |
| `ActionReader.ReadableWhenFresh` | src/config_readers/bmv2_json_reader.c:257-273 | what `ReadActions` asks of its input is met by a type nothing has been read of, at most one id in each annotation, and at most 65536 objects |
| `IdReader.ReaderState.PreReserveIds` | src/config_readers/bmv2_json_reader.c:134-164 | the nested loops reserve what the specification says, with the `found_id` flag that is never reset |
| `IdReader.ReaderState.GenerateIdFromName` | src/config_readers/bmv2_json_reader.c:185-196 | probing with a 32-bit hash that may wrap finds the specified slot and reserves and allocates it |
| `IdReader.ReaderState.RequestId` | src/config_readers/bmv2_json_reader.c:198-215 | the first listed id not yet allocated, put together by bitwise or, else a generated one |
| `IdReader.ReaderState.AssignIds` | src/config_readers/bmv2_json_reader.c:268-273 | the loop of requests produces the specified ids, and leaves exactly them reserved and given out in addition |
| `IdReader.WrapKeepsSlot` | src/config_readers/bmv2_json_reader.c:191 | the low 16 bits do not notice the wrap-around of the 32-bit hash |
| `Subscription.Subscription.Process` | proto/server/gnmi_sysrepo.cpp:643-731 | one pass updates the cache as specified; a failing scan changes nothing; updates are written in one message, only if there are any and sending is on |
| `Subscription.ScanKeepsReplica` | proto/server/gnmi_sysrepo.cpp:675-709 | ON_CHANGE: the updates of a scan turn a copy of the old cache into a copy of the new one |
| `Subscription.ScanIsCached` | proto/server/gnmi_sysrepo.cpp:675-709 | the cache then holds what the scan showed for every leaf that is set |
| `Subscription.ReplicaAgreement` | proto/server/gnmi_sysrepo.cpp:541-596 | over every run the client's replay of all updates has the scanned value of every set leaf in the latest scan (with `updates_only`, starting from the state at subscription) |
| `Subscription.CodeMatchesSpec` | proto/server/gnmi_sysrepo.cpp:687-709 | in every mode and over every run the cached rule sends exactly what a rule over the history of sent updates would: ON_CHANGE new and changed values and heartbeats; SAMPLE after the interval, or with suppress_redundant and the same value after the heartbeat |
| `Subscription.RepeatsAreJustified` | proto/server/gnmi_sysrepo.cpp:687-701 | over every run the next update of a path, ON_CHANGE, changes the value or comes a nonzero heartbeat later; SAMPLE, comes the sample interval later, or with suppress_redundant and the same value the heartbeat |
| `Subscription.SentOnceItMay` | proto/server/gnmi_sysrepo.cpp:687-709 | and over every run a scanned path that may be sent again by these rules is sent, and no other |
| `Subscription.FirstScanSends` | proto/server/gnmi_sysrepo.cpp:664-695 | a first scan sends a set leaf at once; for SAMPLE once the interval has gone by since the epoch |
| `Subscription.OnlySetLeaves` | proto/server/gnmi_sysrepo.cpp:661-670 | items that are no leaf or at their default neither send nor change the cache |
| `SubscriptionMgr.SyncOnlyAfterAll` | proto/server/gnmi_sysrepo.cpp:545-595 | a list is accepted exactly if every entry is valid and scannable, and only then the sync response is sent, as the last message |
| `SubscriptionMgr.StatusMeans` | proto/server/gnmi_sysrepo.cpp:545-587 | which status a subscription gets: unsupported modes, senseless settings or path, failed first scan, or accepted |
| `SubscriptionMgr.BreaksOffAt` | proto/server/gnmi_sysrepo.cpp:541-596 | a list breaks off at its first bad entry with that status; those before stay, with their first updates written, and the bad one too if its first scan failed |
| `SubscriptionMgr.Manager.AddSubscriptionList` | proto/server/gnmi_sysrepo.cpp:541-596 | the loop over the list adds, scans and reports as specified, stopping at the first bad entry |
| `SubscriptionMgr.Manager.Refresh` | proto/server/gnmi_sysrepo.cpp:632-633 | the loop of a timer pass scans and writes as specified, passing over failed scans |
| `SubscriptionPath.ScanLooks` | proto/server/gnmi_sysrepo.cpp:661-721 | what a scan does at a path depends only on the cache, the settings and the value there: it sends the value or it does not |
| `SubscriptionPath.PassIsPassAt` | proto/server/gnmi_sysrepo.cpp:632-633 | a timer pass is, path by path, a sequence of such looks |
| `SubscriptionPath.PassAgreesIff` | proto/server/gnmi_sysrepo.cpp:632-633 | whatever the modes: after a pass the client holds the value if and only if it did before or some subscription sent it |
| `SubscriptionRuns.ManagerAgreement` | proto/server/gnmi_sysrepo.cpp:541-636 | over every run of lists and timer passes, any modes, with `updates_only` and failing scans: after a pass the client agrees with the datastore at a path if its anchor, the last subscription that selects it and sent its first scan, is ON_CHANGE and has not failed a scan |
| `SubscriptionRuns.OnePassAgreesIff` | proto/server/gnmi_sysrepo.cpp:622-636 | one pass from any state, failed scans included: the client agrees at a path if and only if it did before or some subscription is due to send it |
| `SubscriptionRuns.NoEmptyNotification` | proto/server/gnmi_sysrepo.cpp:724-730 | over every run no notification without an update is written |
| `SubscriptionRuns.AddKeepsAnchor` | proto/server/gnmi_sysrepo.cpp:541-596 | adding a list keeps the anchor's cache and the client in step, wherever the list breaks off |
| `SubscriptionPlans.PlanAgreesIff` | proto/server/gnmi_sysrepo.cpp:541-745 | for every plan of lists and passes, every path and every schedule over which no sampling interval or heartbeat goes by: all runs without failed scans, at these times or at any, agree there after the last pass if and only if the last subscription that selects the path and sends its first scan is ON_CHANGE |
| `SubscriptionPlans.OtherPlanCanDisagree` | proto/server/gnmi_sysrepo.cpp:622-701 | for every other plan and every such schedule, passes 50 ms apart included, a run at these times that disagrees is built: ON_CHANGE subscriptions join at 1, SAMPLE ones at 2, all passes find 1 |
| `SubscriptionDelay.BehindOnlyBriefly` | proto/server/gnmi_sysrepo.cpp:622-721 | over every run, with any other subscriptions and their scans free to fail: after a pass in which a SAMPLE subscription, or one with a heartbeat, scans a path, the client has what is there, unless less than its interval ago it joined or took part in a pass that left the client up to date |
| `SubscriptionDelay.SentWhenFresh` | proto/server/gnmi_sysrepo.cpp:688-709 | the time a subscription remembers having sent a path is that of its first scan, or of a pass after which the client had what was there |
| `Wire.LittleEndianIsLawful` | src/utils/serialize.c:26-34 | a little-endian host reads back what it wrote, for both widths: the hosts quantified over exist |
| `Wire.U32Back` | src/utils/serialize.c:92-95 | reading a 32-bit integer off the front of a message gives what was written and leaves the rest |
| `Wire.U64Back` | src/utils/serialize.c:97-100 | the same for 64 bits |
| `Wire.Put` | src/utils/serialize.c:26-34 | copying bytes into a message changes just their place |
| `Arena.AlignedIff` | src/pi_rpc_server.c:81-82 | aligned means divisible by 16 |
| `Arena.AlignShift` | src/pi_rpc_server.c:81-82 | rounding up after adding to an aligned offset is adding the rounded size |
| `Arena.LaidOutAt` | src/pi_rpc_server.c:84-114 | regions laid out between two offsets are each inside and 16-aligned |
| `Arena.LaidOutApart` | src/pi_rpc_server.c:84-114 | and pairwise disjoint |
| `DirectRes.CounterBack` | src/utils/serialize.c:69-75 | a counter configuration is read back from its 20 bytes |
| `DirectRes.MeterBack` | src/utils/serialize.c:77-86 | a meter configuration is read back from its 32 bytes |
| `DirectRes.CounterLayout` | src/utils/serialize.c:69-75 | the offsets of the fields of a counter |
| `DirectRes.MeterLayout` | src/utils/serialize.c:77-86 | the offsets of the fields of a meter |
| `DirectRes.StandardFnsAreLawful` | src/pi.c:91-128 | the registered size, emit and retrieve functions of counters and meters agree with each other |
| `DirectRes.SizeIsExact` | src/pi_rpc_server.c:1346-1376 | the predicted size of a list of direct resources is the number of bytes emitted for it |
| `DirectRes.RecordLayout` | src/pi_rpc_server.c:1361-1376 | a record is the resource id, the size of the configuration, and the bytes its type emits |
| `DirectRes.ListLayout` | src/pi_rpc_server.c:1361-1376 | a list is the number of records and the records, each where those before it end |
| `RecordWalk.SameStopsIff` | src/pi_rpc_server.c:84-135 | two walks over one message get through and stop at the same positions if and only if their steps agree in length at each |
| `RecordWalk.WalkBack` | src/pi_rpc_server.c:116-135 | records written one after the other are read back in order, up to their end |
| `DirectResRpc.DirectResConfigSize` | src/pi_rpc_server.c:1346-1359 | the loop adds up the specified size |
| `DirectResRpc.EmitDirectResConfig` | src/pi_rpc_server.c:1361-1376 | the loop writes exactly the encoding of the list, nothing before or behind it, and returns its size |
| `DirectResRpc.WalksAgreeIff` | src/pi_rpc_server.c:84-135 | on every message, whoever wrote it: the allocating pass and the retrieving pass get through n records at the same positions if and only if each record can be read and claims the size its retrieve function takes |
| `DirectResRpc.EmittedListIsHonest` | src/pi_rpc_server.c:1361-1376 | on an emitted list the two passes agree on every position |
| `DirectResRpc.MisstatedDisagrees` | src/pi_rpc_server.c:84-135 | on a record that claims any other size than its own the two passes go on from different places |
| `DirectResRpc.MisstatedCounter` | src/pi_rpc_server.c:84-135 | such a message: a counter whose 20 bytes are announced as 12 |
| `DirectResRpc.RecordsBack` | src/pi_rpc_server.c:116-135 | on an emitted list the retrieving pass reads the list, the allocating pass its sizes, to the same end |
| `DirectResRpc.BlobsLaidOut` | src/pi_rpc_server.c:101-105 | the two passes' different running totals end at the same offset, with the regions in between aligned and apart |
| `DirectResRpc.BlockIsSafe` | src/pi_rpc_server.c:84-114 | header, array and all configurations are laid out inside what was asked of malloc, for all sizes |
| `DirectResRpc.AllocateDirectResConfig` | src/pi_rpc_server.c:84-114 | the allocating pass asks for the specified size and remembers the specified offsets; no list gives no block |
| `DirectResRpc.RetrieveDirectResConfig` | src/pi_rpc_server.c:116-135 | the retrieving pass returns the list, the bytes taken and where each configuration was put |
| `DirectResRpc.Receive` | src/pi_rpc_server.c:397-399 | both passes on an emitted list: the list comes back, the cursor stops right behind it, and the block is laid out safely |
| `RpcCodec.TableEntrySize` | src/pi_rpc_server.c:1239-1257 | the predicted size of a table entry is the length of its encoding |
| `RpcCodec.EmitTableEntry` | src/pi_rpc_server.c:1270-1288 | the entry's encoding is written in place, exactly, and its length returned |
| `RpcCodec.EmitActionData` | src/pi_rpc_server.c:1259-1268 | id, size and bytes are written; empty data writes no bytes |
| `RpcCodec.EmitMatchKey` | targets/rpc/pi_tables_imp.c:50-57 | priority, size and bytes of the key are written exactly |
| `RpcCodec.ActionBack` | src/pi_rpc_server.c:1290-1344 | retrieving undoes emitting for none, data and indirect entries and takes exactly what was emitted |
| `RpcCodec.ActionRefusedIff` | src/pi_rpc_server.c:1290-1344 | an entry cannot be read if and only if its kind is none of the three or the message ends within it |
| `RpcCodec.EntryLayout` | src/pi_rpc_server.c:1270-1288 | where kind, action id, size, data or handle, and the direct resources of an entry are |
| `RpcCodec.TaggedBack` | src/pi_rpc_server.c:362-374 | a match key (or action data) is read back, with its size |
| `RpcCodec.EmitHeader` | targets/rpc/pi_tables_imp.c:79-82 | request id, type, session, device and table fill the first 28 bytes |
| `RpcCodec.HeaderBack` | src/pi_rpc_server.c:1083-1087 | these fields are read back by the dispatcher and the handler |
| `RpcCodec.HeaderLayout` | targets/rpc/pi_tables_imp.c:59-94 | where request id, type, session, device, pipe mask and table are |
| `RpcCodec.HeaderRefusedIff` | src/pi_rpc_server.c:1083-1121 | only a request of type 10 with all fixed fields is taken for an add request |
| `RpcCodec.AddLayout` | targets/rpc/pi_tables_imp.c:59-94 | where priority, key, entry and overwrite flag of an add request are |
| `RpcCodec.BuildAdd` | targets/rpc/pi_tables_imp.c:59-94 | the client's request, from the request id to the overwrite flag, fills the buffer of predicted size exactly with the encoding |
| `RpcCodec.HandleAdd` | src/pi_rpc_server.c:376-403 | the server on such a request: header fields, key, entry with all direct resources, and overwrite flag come back, the cursor ends at the next field, memory is laid out safely |
| `FetchArena.PrepareFetchRes` | src/pi_tables.c:205-248 | the loop finds the true maximum of the aligned sizes, and the sums give the specified share per entry |
| `FetchArena.EntryIsSafe` | src/pi_tables.c:326-413 | for every entry kind and number of configurations up to the table's direct resources, all sub-objects are 16-aligned, in order without overlap, inside the entry's share |
| `FetchArena.CarvedSizes` | src/pi_tables.c:326-413 | what is carved for an entry has the sizes of key, action data, properties and, with direct resources, list header, array and each configuration |
| `FetchArena.ArenaIsSafe` | src/pi_tables.c:202-248 | all sub-objects of all entries together are aligned, pairwise apart and inside the block |
| `FetchArena.ResourcesAreCovered` | src/pi_tables.c:226-235 | configurations of the table's own direct resources fit the slots prepared |
| `FetchArena.FullConfigsFitIff` | src/pi_tables.c:237-244 | the bound is sharp: n configurations of the greatest size fit a DATA entry's share if and only if the table has at least n direct resources |
| `TableFetch.ReadBody` | src/pi_tables.c:341-367 | the entry type switch, without a default case, reads what was encoded |
| `TableFetch.ReadProps` | src/pi_tables.c:369-378 | the ttl is read exactly if bit 0 of the valid properties is set |
| `TableFetch.ReadHead` | src/pi_tables.c:322-378 | everything of an entry before its direct resources is read back |
| `TableFetch.EntryLayout` | src/pi_tables.c:322-413 | where handle, priority, key, action, properties and direct resources of a fetched entry are |
| `TableFetch.BodyLayout` | src/pi_tables.c:341-367 | the action is kind 1 with id, size and data, kind 2 with a handle, or another kind with nothing |
| `TableFetch.CarveFixed` | src/pi_tables.c:326-373 | key, action data and properties are carved at the specified offsets |
| `TableFetch.ReadIntoSlots` | src/pi_tables.c:401-413 | the loop reads the list and puts each configuration in the next slot |
| `TableFetch.ReadConfigs` | src/pi_tables.c:380-416 | list, cursor and carved regions of the direct resources, where a table without any has entries without any, as the source asserts |
| `TableFetch.FetchRes.Next` | src/pi_tables.c:319-419 | on a blob encoding the entries ahead, the call returns the next one and its index and leaves the rest ahead; past the last it changes nothing |
| `TableFetch.TakeAll` | src/pi_tables.c:319-419 | n calls on a blob of n entries return exactly these in order with the cursor at the end, and all they were handed out is aligned, pairwise apart and inside the block |
| `ActProfFetch.FetchRes.NextMember` | src/pi_act_prof.c:199-224 | the next member is returned and stored in its slot, those before stay in place, and the walk over groups is not touched |
| `ActProfFetch.FetchRes.NextGroup` | src/pi_act_prof.c:226-245 | the next group is returned with its slice of the shared handle array; past the last nothing changes |
| `ActProfFetch.TakeAll` | src/pi_act_prof.c:199-245 | in any interleaving of the two iterators, members and groups come out complete and in order, with both cursors at their ends |
| `ActProfFetch.ReadGroup` | src/pi_act_prof.c:236-242 | the slice named by number and offset is the group's list of handles |
| `ActProfFetch.MemberLayout` | src/pi_act_prof.c:199-224 | where handle, action id, size and data of a member are |
| `ActProfFetch.GroupLayout` | src/pi_act_prof.c:236-242 | where handle, number of members and offset of a group are |
| `ArpSpec.RewriteTouchesOnly` | proto/demo_grpc/simple_router_mgr.cpp:55-61 | rewriting sets the CPU header and the destination MAC and leaves all other bytes and the length |
| `ArpSpec.IpPacketBack` | proto/demo_grpc/simple_router_mgr.cpp:105-125 | every packet with a zero CPU header of reason 0, an Ethernet header and an IPv4 header is taken as an IP packet for the address in it |
| `ArpSpec.OnlyIpPackets` | proto/demo_grpc/simple_router_mgr.cpp:105-125 | and only those are: the parts of the packet are recovered |
| `ArpSpec.ArpFields` | proto/demo_grpc/simple_router_mgr.cpp:55-90 | where every field of a built ARP packet is, from the egress port to the addresses on both levels |
| `ArpSpec.ArpPacketBack` | proto/demo_grpc/simple_router_mgr.cpp:73-90 | an ARP packet as built is parsed back to its opcode, sender and target |
| `ArpSpec.ClassifyIff` | proto/demo_grpc/simple_router_mgr.cpp:105-137 | a packet is taken for an IP or ARP packet exactly by its length and first ten bytes |
| `ArpSpec.ArpReads` | proto/demo_grpc/simple_router_mgr.cpp:126-135 | from which bytes opcode and addresses are read |
| `ArpSpec.ByIpIsFirst` | proto/demo_grpc/simple_router_mgr.cpp:500-502 | the search by address looks at every interface and finds the first that has it, or none if none has |
| `ArpSpec.ByPortIsFirst` | proto/demo_grpc/simple_router_mgr.cpp:567-569 | and the search by port |
| `BigEndian.MostSignificantFirst` | proto/demo_grpc/simple_router_mgr.cpp:55-90 | network order: each byte of a number by its place |
| `ArpSpec.RewrittenIsIgnored` | proto/demo_grpc/simple_router_mgr.cpp:105-137 | a reinjected packet would not be queued again |
| `ArpSpec.StepKeepsSound` | proto/demo_grpc/simple_router_mgr.cpp:598-606 | every event keeps: queue keys are known next hops, queues are nonempty, every queued packet is an IP packet for its key and so long enough for the rewrite |
| `ArpSpec.StepConserves` | proto/demo_grpc/simple_router_mgr.cpp:529-548 | one event keeps the balance of accepted, reinjected and queued packets |
| `ArpSpec.Conservation` | proto/demo_grpc/simple_router_mgr.cpp:529-606 | over every run and next hop, the packets accepted are those reinjected followed by those still queued, in order and each once |
| `ArpSpec.ReinjectionAnswersAReply` | proto/demo_grpc/simple_router_mgr.cpp:529-548 | over every run each reinjected packet was logged by one event, a reply from its hop, and is the rewrite of an IP packet for the hop with the port the hop had then and the reply's MAC |
| `ArpSpec.AbortsIff` | proto/demo_grpc/simple_router_mgr.cpp:550-564 | the assertion in the dispatch fails on a run if and only if it brings an ARP packet that is neither request nor reply |
| `ArpExchange.ReplyIsSent` | proto/demo_grpc/simple_router_mgr.cpp:499-527 | a request for an address that some interface has is answered by the first such interface, wherever it is in the list |
| `ArpExchange.NoReply` | proto/demo_grpc/simple_router_mgr.cpp:499-527 | a request for an address no interface has changes nothing |
| `ArpExchange.RequestIsSent` | proto/demo_grpc/simple_router_mgr.cpp:598-606 | a packet for a known hop is queued, and the first interface on the port of the hop asks for it |
| `ArpExchange.NoRequest` | proto/demo_grpc/simple_router_mgr.cpp:566-596 | without an interface on that port the packet is queued and nobody is asked |
| `ArpExchange.SpeaksWhenAsked` | proto/demo_grpc/simple_router_mgr.cpp:499-606 | over every run without a strange ARP packet the requests and replies sent are exactly these, in order, by the interfaces and routes the events have set up |
| `ArpExchange.ExchangeDelivers` | proto/demo_grpc/simple_router_mgr.cpp:529-606 | packet in, request out, reply in: afterwards nothing waits for the hop, other queues are as before, and all that waited has gone out in order on the hop's port to the replier's MAC address |
| `ArpRouter.RewriteInPlace` | proto/demo_grpc/simple_router_mgr.cpp:537-543 | header and MAC written over a packet's own bytes give its rewrite |
| `ArpRouter.SimpleRouterMgr.HandleIpPacket` | proto/demo_grpc/simple_router_mgr.cpp:598-606 | an IP packet for a known hop joins its queue and an ARP request goes out; else nothing happens |
| `ArpRouter.SimpleRouterMgr.HandleArpReply` | proto/demo_grpc/simple_router_mgr.cpp:529-548 | the hop's packets are sent rewritten, in order, and the queue is erased |
| `ArpRouter.SimpleRouterMgr.SendArpRequest` | proto/demo_grpc/simple_router_mgr.cpp:566-596 | the first interface with the port sends the request, wherever it is in the list; if none has it, nothing is sent |
| `ArpRouter.SimpleRouterMgr.HandleArpRequest` | proto/demo_grpc/simple_router_mgr.cpp:499-527 | the first interface with the address replies, wherever it is in the list; if none has it, nothing is sent |
| `ArpRouter.SimpleRouterMgr.HandlePacket` | proto/demo_grpc/simple_router_mgr.cpp:105-137 | length checks, header test and dispatch do one step of the machine |
| `ArpRouter.SimpleRouterMgr.AddRoute` | proto/demo_grpc/simple_router_mgr.cpp:360-362 | the hop and its port become known |
| `ArpRouter.RunEvents` | proto/demo_grpc/simple_router_mgr.cpp:105-137 | the code run over any events ends where the machine does |
| `ActionLayout.OffsetsArePrefixSums` | src/p4info/actions.c:175-193 | a parameter's offset is the sum of the byte widths before it |
| `ActionLayout.RangesTile` | src/p4info/actions.c:187-190 | the parameters' byte ranges cover each byte of the action data exactly once, and nothing else |
| `ActionLayout.LookupFinds` | src/p4info/actions.c:75-82 | an id finds the record of the first parameter that has it, however many slots there are |
| `ActionLayout.LookupMissesIff` | src/p4info/actions.c:75-82 | an id not added finds nothing if and only if it is not 0 or no slot is still empty |
| `ActionLayout.IndexIsFirst` | src/p4info/actions.c:234-242 | lookup by index gives the first position of the id, or none if it is not there |
| `ActionLayout.NameFindsFirst` | src/p4info/actions.c:84-91 | a name finds the id of the first parameter that has it, and nothing if and only if none has |
| `ActionLayout.Action.AddParam` | src/p4info/actions.c:175-193 | the next slot gets a record with name, id, bitwidth, the mask for its first byte and the offset so far; the size grows, and all other slots stay |
| `ActionLayout.Action.ParamDataAt` | src/p4info/actions.c:75-82 | the loop returns the first record with the id |
| `ActionLayout.Action.ParamIndex` | src/p4info/actions.c:234-242 | the loop returns the index of the id, or -1 |
| `ActionLayout.Action.ParamIdByName` | src/p4info/actions.c:84-91 | the loop returns the id of the first parameter with the name |
| `ActionLayout.BuildAndFind` | src/p4info/actions.c:154-193 | after adding any list of parameters an id finds the record of the first that has it: name, bitwidth, first-byte mask, and as offset the sum of the byte widths before |
| `NetValue.ExactlyOneAccepts` | src/pi_value.c:49-123 | for every bitwidth from 1 to 64 exactly one of the four constructors accepts it |
| `NetValue.AcceptsIffSmallest` | src/pi_value.c:49-123 | a constructor accepts exactly the bitwidths that fit its argument and no narrower one |
| `NetValue.AndOnes` | src/p4info/actions.c:169-173 | masking with k ones is taking the remainder by 2^k |
| `NetValue.MaskIsOnes` | src/p4info/actions.c:169-173 | the first-byte mask has a one for each bit of the field that sits in the first byte |
| `NetValue.TruncationIsModular` | src/pi_value.c:85-123 | the needed bytes with the first masked, read big-endian, are the value modulo 2^bitwidth |
| `NetValue.GetNetv` | src/pi_value.c:49-123 | with bitwidth and mask from the record of the parameter named: a constructor rejects exactly the bitwidths that are not its own, and stores the value modulo 2^bitwidth in the bytes needed |
| `NetValue.FoundMaskTruncates` | src/p4info/actions.c:169-187 | the mask of the record found for a parameter cuts any value to the parameter's bits |
| `NetValue.ModularIff` | src/pi_value.c:49-64 | a bitwidth of 0 is accepted with the whole byte kept: modulo 2^bitwidth holds of everything accepted if and only if the bitwidth is positive or the value 0 |
| `HexParse.HexStrToBytes` | CLI/utils.c:174-200 | fails exactly on text that is not hexadecimal after an optional 0x or does not fit; else the buffer has the value, big-endian and zero-extended |
| `HexParse.AcceptedIff` | CLI/utils.c:174-200 | text is accepted if and only if it is digits, or 0x and digits, at most two for each byte |
| `Hex.DigitMeans` | CLI/utils.c:165-172 | a character has a digit value exactly if it is that digit in one of the two cases |
| `HexParse.ParsePairs` | CLI/utils.c:191-197 | the loop over digit pairs accepts exactly hexadecimal digits and accumulates their value |
| `HexParse.ReadingHasValue` | CLI/utils.c:174-200 | an accepted text's value fits the buffer: no digit is lost to the width |
| `HexParse.PrintHexStr` | CLI/utils.c:257-262 | prints the two-digit form of each byte |
| `HexParse.PrintedAt` | CLI/utils.c:257-262 | each byte is printed as its two lower-case digits, high one first |
| `HexParse.PrintedValue` | CLI/utils.c:257-262 | what is printed is hexadecimal and its value is the buffer's |
| `HexParse.RoundTrip` | CLI/utils.c:174-200 | parsing the printed form at its own width returns the buffer |
| `HexParse.RoundTripPrefixed` | CLI/utils.c:178 | with a 0x in front, at any width that holds it, the buffer comes back with zeros before it |
| `CliParam.TryToParse` | CLI/utils.c:118-135 | the address attempt succeeds exactly if the tokens are that many byte values and the last ends the text, and then fills in these bytes |
| `CliParam.ParamToBytes` | CLI/utils.c:202-216 | a field is read as the address it is tried as, else as hexadecimal from what the attempt left of the copy |
| `CliParam.HexDespiteAddressAttempt` | CLI/utils.c:208-215 | a 32-bit field without a dot (or 48-bit without a colon) of any length gets the hexadecimal reading of its text |
| `CliParam.SeparatedButNoAddress` | CLI/utils.c:118-155 | a 32-bit field with a dot, or a 48-bit field with a colon, that is no address is accepted exactly if the part before the first separator is hexadecimal and fits, and read as that part; of text beyond 127 characters this holds of the first 127 |
| `CliParam.AddressOrHexIff` | CLI/utils.c:202-216 | such a field gets its address, or else the hexadecimal reading of all its text, if and only if: with at most 127 characters, it is an address, or has no separator, or starts with one, or its first part is not hexadecimal or does not fit; with more, the attempt on the whole text comes to the address of its first 127 characters, or else their first part |
| `CliParam.Ipv6OrHexIff` | CLI/utils.c:202-216 | a 128-bit field gets its address or else its hexadecimal reading if and only if it has at most 127 characters or its first 127 are the same address, or none, as all of it |
| `CliParam.LongAddressIsCut` | CLI/utils.c:202-209 | 120 zeros and 1.2.3.45 are an address, and read as 1.2.3.4 |
| `CliParam.AcceptsAFirstPart` | CLI/utils.c:118-135 | so text that is neither address nor hexadecimal can be accepted: 12.34 is read as 12 |
| `CliParam.AcceptsAFirstPartOfMac` | CLI/utils.c:137-154 | and so is 12:34 for a 48-bit field |
| `CliParam.LongTextIff` | CLI/utils.c:204-207 | a field tried as no address is read as its text if and only if that has at most 127 characters, or its first 127 are rejected, or it is accepted and denotes 0: the length check never fires |
| `CliParam.NarrowFieldRejectsLongText` | CLI/utils.c:204-207 | fields of up to 62 bytes reject longer text, cut or not |
| `CliParam.LongTextLosesDigits` | CLI/utils.c:204-207 | a text that loses its last digit |
| `CliParam.AddressRoundTrip` | CLI/utils.c:118-155 | an IPv4 or MAC address in its usual notation gives its bytes back |
| `CliGrammar.AddressIff` | CLI/utils.c:118-155 | exactly which text is an address, and of which bytes: as many tokens as bytes, separators between and in front, in any number, but none behind |
| `CliGrammar.StrToLIff` | CLI/utils.c:127-130 | exactly what a token is read as: spaces, a sign, 0x or 0X in hexadecimal, and digits to the end |
| `CliGrammar.HexNumeral` | CLI/utils.c:146-149 | a hexadecimal token has the value of its digits |

## Left out

- Concurrency below the mutex: races on the static connection id counter and between the demo router's threads; their steps are taken to be atomic.
- Several devices, streams that arbitrate for a second device, and the registry of devices: the arbitration model is of one device.
- Streams whose messages cannot be written: a notice counts as told when it is sent.
- What the device manager does with a request that reaches it.
- The Jenkins hash: the results hold for any function of the name.
- The parsing of pragmas, and the quicksort of objects across pipelines: any sorted arrangement is taken.
- SubscriptionRuns.ManagerAgreement: an anchor whose own scan fails is given up, although a later pass may bring client and datastore together again.
- The `prev` links of the sorted list, which the code does not keep consistent.
- The rest of the configuration readers and the P4Info converters.
- Deleted leaves, and the ONCE and POLL modes of Subscribe.
- Conversion of datastore values and paths to protobuf, and clock values beyond 64 bits.
- Truncation in 64-bit sizes: sums of sizes are unbounded here.
- RpcCodec.ActionBack: entry properties are never sent by the code and so not part of an entry.
- TableFetch.FetchRes.Next: what is stored is the decoded value; that a configuration fits its slot is the size registered for its type.
- The reply messages that carry fetched blobs, learning, counters, meters, multicast and cloning over RPC.
- Match keys and match fields of tables, the generic front end, and `pi_getnetv_ptr`, which does not mask.
- Streams whose locale groups digits when a 128-bit number is printed.
- The demo router's table writes, counters, configuration updates and web server.
- Completion, commands and token handling of the command line, and the IPv6 notation.
