# mixi-pgw verification

A Dafny 4.11 model of the core logic of mixi-pgw, a packet gateway for mobile
networks with a DPDK data plane and a GTPv2-C control plane, and proofs about it.
`dafny verify dfyconfig.toml` checks the whole project.

Six parts are modelled.

- **Configuration reload** (`StatusWord`, `Reload`, `ReloadExact`, `ReloadProgress`,
  `ReloadService`, `App`). One state changer and up to 64 worker cores share a status word, a signal
  and three core masks. The protocol is a state machine in which every test and every
  store of a shared word is a step of its own, and a schedule is any sequence of
  actors. The class `DataPlane` holds the words and masks as bit vectors and refines
  the machine.
  *Finding:* the protocol as written can swap the configuration under a running
  burst. A core that read CFGACK in an earlier round may post its ack between
  `RESET_ACK` and the store of the next CFGACK. `ReloadExact.StaleAckRun` is such a
  run from boot, and `ReloadExact.RoundSafeExactly` gives the exact condition for
  every reachable state.
- **Lookup table** (`Bits`, `Lookup`, `LookupRace`). Two record arrays and a packed
  side bitmap, written on the spare side and flipped. The argument `nochk_counter`
  asks for the clock check when it is not zero, against its name; the model follows
  the code. The data plane's own callers pass 0 and never call `Clock`, so the law
  of what a reader may rely on is stated for checked and unchecked writes alike, as
  an exact condition (`LookupRace.IntactExactly`); the clock discipline is one way
  to meet it. `EnumerateForUpdate` flips key 0 without having copied it, so its
  contract speaks of keys from 1.
- **Traffic counters** (`Counting`, `CounterWorker`, `CounterRun`, `CounterCycle`,
  `CounterLog`).
  Sixteen maps of 32-bit counters, the transfer of due records in blocks, the
  polling cycle with policing and pass-through, and the rows for the database.
- **User-plane tunnel** (`Octets`, `Checksum`, `Mbuf`, `Tunnel`, `TunnelTrip`,
  `Egress`). Encapsulation, rewrite to GRE in place, GRE termination, redirection to
  the serving gateway, and the Internet checksum of RFC 1071.
- **GTPv2-C codec** (`GtpcWire`, `GtpcPacket`, `GtpcState`, `GtpcTree`,
  `GtpcReceive`, `Digits`).
  Building and parsing messages, walking them into the parse state with nested
  Bearer Contexts, and packed telephony digits; layouts are those of sections 5.1,
  8.2, 8.3, 8.22 and 8.28 of 3GPP TS 29.274.
  *Finding:* the item length is the length field plus 4 in 16 bits. A length field of
  65533 to 65535 wraps to an item of one to three bytes, and such payloads are taken
  though no list of information elements encodes to them
  (`GtpcWire.ShortItemAccepted`, exact condition on the bytes in
  `GtpcWire.WellFormedExactly`).
  A second one: `gtpc_digits_get` reports an error if errno was ERANGE before the
  call (exact condition in `Digits.RoundTrip`).
- **Packet queue** (`TailQueue`). The linked tail queue with its back pointers to
  pointer cells, the bounded enqueue and the burst dequeue.

Conventions. Clocks, the outcome of ring operations, the database result and the
contents of memory behind a packet are parameters. Hosts are little-endian. DPDK
packet type bits: L2 type in the low four bits, IPv4 0x10, IPv6 0x40, UDP 0x200, GRE
tunnel 0x2000. The packet capacity of the control plane, which two headers define
differently (1514 and 1518), is a parameter.

## Model

| member | source | states |
|---|---|---|
| `StatusWord.StatStore` | dataplane/inc/app.hpp:67-71 | storing a status leaves exactly that status readable and no signal bit changed |
| `StatusWord.SignalStore` | dataplane/inc/app.hpp:49-53 | storing a signal leaves the status field as it was |
| `StatusWord.SignalReset` | dataplane/inc/app.hpp:43-47 | clearing the signals leaves the status field as it was |
| `StatusWord.StoresCommute` | dataplane/inc/app.hpp:38-71 | a status store and a signal store commute: they act on disjoint fields |
| `Reload.RunInv` | dataplane/src/app/app.cc:312-415 | the protocol invariant and safety are kept by every run in which no stale ack falls between RESET_ACK and CFGACK |
| `Reload.ReloadSafety` | dataplane/src/app/app.cc:325-406 | from every initial state, over any interleaving and any number of reloads without such an ack: no burst during SwapConfig, none begins before BUSYLOOP, every Cycle call sees the configuration its burst began with |
| `Reload.AtomicArmSafety` | dataplane/src/app/app.cc:392-397 | the CFGLOAD arm taken as one step is enough for that safety |
| `Reload.CleanResetSafety` | dataplane/src/app/app.cc:392-397 | so is finding no ack outstanding at every RESET_ACK |
| `Reload.StaysClean` | dataplane/src/app/app.cc:332-340 | once RESET_ACK found no ack outstanding, none arises before CFGACK is stored |
| `Reload.StartBarrier` | dataplane/src/app/app.cc:321-331 | in every run, stale acks included, no core is in Cycle while any used core is still in BeforeCycle |
| `Reload.SignalKept` | dataplane/src/app/app.cc:387-397 | a pending signal stays pending until a LoadConfig that starts after it |
| `Reload.RaisedInLoadingIsLost` | dataplane/src/app/app.cc:392-397 | in every run a signal raised while LoadConfig runs is gone at the changer's next step, and no LoadConfig starts for it |
| `Reload.RaiseSurvivesExactly` | dataplane/src/app/app.cc:387-397 | a signal raised now stays pending until a later LoadConfig in all runs if and only if the changer is not between the start of LoadConfig and RESET_SIGNAL |
| `ReloadExact.LateAckOverlaps` | dataplane/src/app/app.cc:392-406 | from every state just after RESET_ACK that keeps the invariant of all runs, if some core's ack is posted or owed there is a continuation of the same round that breaks safety |
| `ReloadExact.CleanRoundSafe` | dataplane/src/app/app.cc:392-406 | from a state that keeps the protocol invariant, without an outstanding ack every continuation of the round is safe |
| `ReloadExact.QuittingSafe` | dataplane/src/app/app.cc:325-406 | a quitting data plane stays safe whatever acks are owed: the changer halts before SwapConfig |
| `ReloadExact.RoundSafeExactly` | dataplane/src/app/app.cc:392-406 | in every reachable state just after RESET_ACK, earlier stale acks included, the rest of the round is safe in all interleavings if and only if the state is and no ack is posted or owed or the data plane is quitting |
| `ReloadExact.StaleAckRun` | dataplane/src/app/app.cc:325-406 | a concrete schedule from boot in which SwapConfig overlaps a burst |
| `ReloadProgress.RoundProgress` | dataplane/src/app/app.cc:372-406 | a round in which the changer and every used core move passes a stage or uses up one unit of a bounded wait |
| `ReloadProgress.ReloadCompletes` | dataplane/src/app/app.cc:325-406 | from every reachable state with a signal pending, a bounded number of such rounds loads, swaps and returns to BUSYLOOP |
| `ReloadService.ServiceAccount` | dataplane/src/app/app.cc:325-341 | the exact account of every schedule that keeps the status at BUSYLOOP or CFGLOAD: a loop of 2^18 Cycle calls takes two more turns, to test quit and to read the status |
| `ReloadService.ServiceBound` | dataplane/src/app/app.cc:325-341 | from every reachable state, while the status stays BUSYLOOP or CFGLOAD a used core makes 2^18 Cycle calls in every 2^18 + 2 of its turns after at most three, whatever the others do |
| `ReloadService.HeldMakesNoCall` | dataplane/src/app/app.cc:325-341 | while the status stays among DC, INIT, PREPARE, CFGACK and CFGSWAP a core outside a burst makes no Cycle call |
| `ReloadService.FreshCall` | dataplane/src/app/app.cc:325-341 | a core makes a Cycle call in a burst begun under the present configuration after at most the rest of its burst and three turns |
| `ReloadService.ReloadServes` | dataplane/src/app/app.cc:325-406 | the rounds that complete a reload pass a state in BUSYLOOP under a later configuration, from which every used core makes a Cycle call under it within 2^18 + 3 of its turns while the status keeps serving |
| `ReloadService.QuitStops` | dataplane/src/app/app.cc:325-341 | from every state that keeps the invariant of all runs, once quit is set a core stops within 2^18 + 2 of its turns and stays stopped |
| `ReloadService.InterruptStops` | dataplane/src/app/app.cc:325-411 | from boot, in every run, after SIGINT the changer halts within five of its turns and every used core stops |
| `App.StoreStatus` | dataplane/inc/app.hpp:67-71 | the stored word decodes to the new status with the same pending signal |
| `App.StoreSignal` | dataplane/inc/app.hpp:49-53 | the stored word has a signal pending and the same status |
| `App.ClearSignal` | dataplane/inc/app.hpp:43-47 | the stored word has no signal pending and the same status |
| `App.MembersSet` | dataplane/inc/app.hpp:57-66 | setting bit c of a mask adds core c and nothing else to the set it stands for |
| `App.MembersExact` | dataplane/inc/app.hpp:56-77 | two masks are equal if and only if their sets of cores are: the word comparison of prepared or ack with used is the set comparison |
| `App.DataPlane.SetStatus` | dataplane/inc/app.hpp:67-71 | the abstract state changes in its status only |
| `App.DataPlane.SetSignal` | dataplane/inc/app.hpp:49-53 | the abstract state changes in its signal only |
| `App.DataPlane.ResetSignal` | dataplane/inc/app.hpp:43-47 | the abstract state loses its signal only |
| `App.DataPlane.SetPrepare` | dataplane/inc/app.hpp:57-61 | core c joins the prepared set |
| `App.DataPlane.SetAck` | dataplane/inc/app.hpp:72-76 | core c joins the ack set |
| `App.DataPlane.ResetAck` | dataplane/inc/app.hpp:78-80 | the ack set becomes empty |
| `App.DataPlane.Commit` | dataplane/src/app/app.cc:439-446 | the used mask stands for exactly the configured cores and the state is initial |
| `App.DataPlane.CoreTurn` | dataplane/src/app/app.cc:318-341 | one worker turn on words and masks is one step of that core in the protocol, so `ReloadService.ServiceBound` says how often it calls Cycle and `ReloadService.HeldMakesNoCall` when it does not |
| `App.DataPlane.ArmTurn` | dataplane/src/app/app.cc:383-406 | a later step of a multi-step changer arm is that step of the protocol |
| `App.DataPlane.ChangerTurn` | dataplane/src/app/app.cc:372-411 | one changer turn is one changer step of the protocol |
| `App.DataPlane.Signal` | dataplane/src/app/app.cc:963-982 | SIGUSR1 and SIGUSR2 raise a pending signal, SIGINT sets quit |
| `App.DataPlane.RunSchedule` | dataplane/src/app/app.cc:312-415 | executing any schedule on the words ends in the state the protocol's run ends in, so the theorems on runs hold of the words |
| `Lookup.FlipOne` | dataplane/inc/lookup_tpl.hh:173-176 | flipping a key's bit changes the side of that key and of no other key of its 64-bit word |
| `Lookup.Table.constructor` | dataplane/inc/lookup_tpl.hh:96-108 | a new table is the empty map at clock zero |
| `Lookup.Table.Clear` | dataplane/inc/lookup_tpl.hh:96-108 | the table becomes the empty map at clock zero |
| `Lookup.Table.Clock` | dataplane/inc/lookup_tpl.hh:87-89 | the clock advances and the map stays |
| `Lookup.Table.Find` | dataplane/inc/lookup_tpl.hh:118-147 | without flag, End if and only if the key is not in the map, else a record holding the map's value; with flag, the spare side; End past the size |
| `Lookup.Table.SwapSide` | dataplane/inc/lookup_tpl.hh:173-176 | current and spare of one key change places, all other keys keep theirs |
| `Lookup.Table.Install` | dataplane/inc/lookup_tpl.hh:209-215 | writing the spare record and flipping replaces the map at one key |
| `Lookup.Table.Claim` | dataplane/inc/lookup_tpl.hh:201-206 | a checked write is admitted if and only if the clock moved past the last checked write, and claims the period |
| `Lookup.Table.Add` | dataplane/inc/lookup_tpl.hh:198-218 | refines a map update; a refused clock-checked write changes nothing; a key past the size is an error after the clock is claimed |
| `Lookup.Table.Del` | dataplane/inc/lookup_tpl.hh:219-237 | refines a map removal with the same refusals |
| `Lookup.Table.RunOps` | dataplane/inc/lookup_tpl.hh:87-237 | any sequence of Clock, Add and Del refines the same sequence on a plain partial map |
| `Lookup.Table.CopyToSpare` | dataplane/inc/lookup_tpl.hh:180-192 | the update pass leaves every current record untouched and prepares every spare from key 1 |
| `Lookup.Table.FlipWords` | dataplane/inc/lookup_tpl.hh:194-196 | flipping all words exchanges the sides of all keys at once |
| `Lookup.Table.EnumerateForUpdate` | dataplane/inc/lookup_tpl.hh:177-197 | afterwards every key from 1 is present with the function applied to its former current record |
| `LookupRace.StepIntact` | dataplane/inc/lookup_tpl.hh:118-237 | every step but a store into a held side leaves all records handed out as they were |
| `LookupRace.StoreIntactExactly` | dataplane/inc/lookup_tpl.hh:207-235 | a store leaves them, whatever is stored, if and only if no record of the key's spare side is held |
| `LookupRace.NoSpareStoreIntact` | dataplane/inc/lookup_tpl.hh:87-237 | a run without such a store is intact in every state |
| `LookupRace.SpareStoreBreaks` | dataplane/inc/lookup_tpl.hh:87-237 | a run with such a store breaks a held record for some values put |
| `LookupRace.IntactExactly` | dataplane/inc/lookup_tpl.hh:87-237 | for every run, checked or not: records handed out stay intact throughout for all values put if and only if no store aims at a side that is held then |
| `LookupRace.StepInv` | dataplane/inc/lookup_tpl.hh:118-237 | every disciplined step keeps: a write in progress aims away from every record handed out |
| `LookupRace.DisciplinedIsClear` | dataplane/inc/lookup_tpl.hh:87-237 | clock-checked writes not cut by a Clock never store into a held side |
| `LookupRace.HeldRecordsIntact` | dataplane/inc/lookup_tpl.hh:87-237 | in every interleaving of a reader with clock-checked writes not cut by a Clock, a record Find returned does not change before the next Clock |
| `LookupRace.WriteIsApply` | dataplane/inc/lookup_tpl.hh:198-237 | the split write, undisturbed, is the map operation of the sequential model |
| `LookupRace.UncheckedPairExactly` | dataplane/src/core/core_pgw_base_worker.cc:571-579 | two unchecked writes to a key, as the data plane makes them, are clear if and only if no record of the key is held before them |
| `LookupRace.CutWriteExactly` | dataplane/inc/lookup_tpl.hh:198-237 | a checked write cut by a Clock and one more in the new period are clear if and only if the key shows nothing to find in between |
| `LookupRace.UncheckedWritesOverwrite` | dataplane/inc/lookup_tpl.hh:198-218 | a concrete held record overwritten by two unchecked writes |
| `LookupRace.CutWriteOverwrites` | dataplane/inc/lookup_tpl.hh:198-218 | a concrete held record overwritten after a cut checked write |
| `Counting.ChargeBytes` | dataplane/src/core/core_counter_worker.cc:240-251 | a charge moves the counter of its own mode only, and loses 2^32 bytes exactly on a wrap |
| `Counting.HeldAfter` | dataplane/src/core/core_counter_worker.cc:233-259 | the bytes held for every key and mode after a count |
| `Counting.CountBalanced` | dataplane/src/core/core_counter_worker.cc:233-259 | a count keeps charged = held + handed on + 2^32 per wrap, for every key and mode |
| `Counting.MoveBalanced` | dataplane/src/core/core_counter_worker.cc:304-352 | copying a record to a block and erasing it keeps that balance |
| `Counting.EraseDue` | dataplane/src/core/core_counter_worker.cc:304-352 | erasing a due record takes exactly one from the due set and nothing else from the maps |
| `Counting.TransferOfDue` | dataplane/src/core/core_counter_worker.cc:304-352 | draining the due records up to the limit is the transfer as the numbers 1048576, 60 and 10000 say it |
| `Counting.BuildOrder` | dataplane/src/core/core_counter_worker.cc:284-285 | the visiting order is a permutation of the sixteen maps that starts at the current one |
| `Counting.Advance` | dataplane/src/core/core_counter_worker.cc:365-372 | the next position is below 16 for every tail value, an unset one included |
| `CounterWorker.Counter.constructor` | dataplane/src/core/core_counter_worker.cc:45-56 | a new counter is balanced and empty |
| `CounterWorker.Counter.Counting` | dataplane/src/core/core_counter_worker.cc:233-259 | counts into the map of the key's remainder and keeps the balance of every key and mode |
| `CounterWorker.Counter.Take` | dataplane/src/core/core_counter_worker.cc:304-352 | one record moves to the open block, a full block is sent, and the exit that would leave the copied record unerased is never reached |
| `CounterWorker.Counter.DrainMap` | dataplane/src/core/core_counter_worker.cc:304-352 | whatever the iteration order, one map is drained of due records or the call's limit is reached; records not due stay unchanged |
| `CounterWorker.Counter.DrainMaps` | dataplane/src/core/core_counter_worker.cc:302-354 | over all maps: everything due is gone unless exactly 10000 records went |
| `CounterWorker.Counter.ForwardTransfer` | dataplane/src/core/core_counter_worker.cc:267-376 | with at most 10000 keys of more than 1048576 LTE bytes or a stamp more than 60 seconds back none of them is left; of more, exactly 10000 go; every other key keeps its record; at most 157 blocks, all of 64 records but a non-empty last one; the balance is kept |
| `CounterWorker.Counter.DrainCalls` | dataplane/src/core/core_counter_worker.cc:267-376 | after n calls max(0, E - 10000 n) of E such keys are left, so they drain in exactly ceil(E/10000) calls |
| `CounterRun.CountRecorded` | dataplane/src/core/core_counter_worker.cc:233-259 | a count keeps: the record has the time of the first count and the bytes counted per mode |
| `CounterRun.ForwardRecorded` | dataplane/src/core/core_counter_worker.cc:304-352 | so does a transfer within a minute of the first count with at most a megabyte of LTE traffic |
| `CounterRun.ServeAll` | dataplane/src/core/core_counter_worker.cc:233-376 | over every run of Counting and ForwardTransfer calls, a key new to the maps is there from its first count on with that time and exactly the bytes counted since, as long as no transfer comes more than 60 seconds after the first count or with more than 1048576 LTE bytes |
| `CounterRun.ServeThenForward` | dataplane/src/core/core_counter_worker.cc:233-376 | and a transfer then takes it out if and only if one of these two holds, if at most 10000 keys are to go |
| `CounterCycle.BatchesPartition` | dataplane/src/core/core_counter_worker.cc:386-431 | enqueued and dropped batches together are all batches, as multisets |
| `CounterCycle.Outlet.Enqueue` | dataplane/src/core/core_counter_worker.cc:398-406 | the buffer becomes one batch, enqueued as a whole or freed and counted as a whole |
| `CounterCycle.Outlet.SendOrBuffer` | dataplane/src/core/core_counter_worker.cc:386-407 | an accepted packet joins the order; a batch leaves exactly when the buffer reaches the burst size |
| `CounterCycle.Outlet.Flush` | dataplane/src/core/core_counter_worker.cc:415-431 | the remaining packets leave as one batch and the buffer is empty |
| `CounterCycle.Outlet.Accounted` | dataplane/src/core/core_counter_worker.cc:386-431 | every accepted packet is in exactly one of ring, drops and buffer, and the drop counter is the number of drops |
| `CounterCycle.PolicingPartition` | dataplane/src/core/core_counter_ingress_worker.cc:80-91 | policed and passed packets of a burst are the burst, as multisets |
| `CounterCycle.ChargesArePassed` | dataplane/src/core/core_counter_ingress_worker.cc:80-91 | the charges of a burst are those of its passed packets: policed packets are never counted |
| `CounterCycle.SplitByPolicer` | dataplane/src/core/core_counter_ingress_worker.cc:80-91 | a packet of a burst is on exactly one side of the split |
| `CounterCycle.BurstPoliced` | dataplane/src/core/core_counter_ingress_worker.cc:80-91 | LTE traffic and green packets always go on, low-speed packets only if green, and 3G packets are freed exactly if red |
| `CounterCycle.BetterColourPasses` | dataplane/src/core/core_counter_ingress_worker.cc:80-91 | a packet that goes on in one colour goes on in every better one, in any burst |
| `CounterCycle.ChargesAreCost` | dataplane/src/core/core_counter_ingress_worker.cc:80-106 | a burst charges a key in a mode the sizes of its user packets of that mode: all LTE ones, 3G ones that are not red, green low-speed ones |
| `CounterCycle.Worker.Handle` | dataplane/src/core/core_counter_ingress_worker.cc:94-106 | one packet is freed, or counted if it is a user packet and passed on; over a burst `CounterCycle.Worker.Cycle` says which, by mode and colour |
| `CounterCycle.Worker.HandleBurst` | dataplane/src/core/core_counter_ingress_worker.cc:76-106 | for every burst size the two loops handle each packet once and in order |
| `CounterCycle.Worker.EndTurn` | dataplane/src/core/core_counter_egress_worker.cc:107-112 | the flush runs exactly at or past the delay, transfers up to 10000 keys and empties the buffer |
| `CounterCycle.Worker.Cycle` | dataplane/src/core/core_counter_egress_worker.cc:57-114 | a whole turn: the burst is split by mode and colour, in order, between frees and passes; every key and mode is charged the sizes of its packets that go on; maps as counted and then transferred |
| `CounterLog.RowsBooked` | dataplane/src/core/core_counter_log_worker.cc:215-281 | rows of any mix of blocks book per key, type and direction exactly the bytes the blocks of that direction carry |
| `CounterLog.RowsOneSided` | dataplane/src/core/core_counter_log_worker.cc:227-277 | no row is empty and none books both directions |
| `CounterLog.LogWorker.AddRows` | dataplane/src/core/core_counter_log_worker.cc:227-277 | one record becomes its rows, each counted as transferred |
| `CounterLog.LogWorker.AddBlock` | dataplane/src/core/core_counter_log_worker.cc:224-278 | one block becomes the rows of its records in order |
| `CounterLog.LogWorker.VirtualCycle` | dataplane/src/core/core_counter_log_worker.cc:200-287 | a burst is stored whole or not at all; a wrong length stores nothing, though rows before it are counted |
| `CounterLog.BooksMatch` | dataplane/src/core/core_counter_log_worker.cc:215-281 | end to end: charged = held + booked + 2^32 per wrap, and charged = held + booked if and only if no counter of that key and mode wrapped |
| `Checksum.Fold` | dataplane/inc/mixi_pgw_data_plane_def.hpp:928-930 | folding ends in 16 bits and is zero only for zero |
| `Checksum.FoldTurns` | dataplane/inc/mixi_pgw_data_plane_def.hpp:928-930 | folding takes whole turns of 65535 away |
| `Checksum.FoldIsOnesSum` | dataplane/inc/mixi_pgw_data_plane_def.hpp:916-931 | the folded plain sum is RFC 1071's end-around-carry sum, for every data |
| `Checksum.NoWrap` | dataplane/inc/mixi_pgw_data_plane_def.hpp:920-927 | from zero no 16-bit length makes the sum leave 32 bits |
| `Checksum.AccIsSum` | dataplane/inc/mixi_pgw_data_plane_def.hpp:920-927 | from any start the wrapping accumulator is the plain sum modulo 2^32 |
| `Checksum.Sum` | dataplane/inc/mixi_pgw_data_plane_def.hpp:916-932 | for any start value the complement of the folded 32-bit sum; from zero the complement of the end-around-carry sum; an odd length reads one byte more |
| `Checksum.StoredVerifies` | dataplane/inc/mixi_pgw_data_plane_def.hpp:933-936 | a header with the complement stored in its zeroed field verifies |
| `Checksum.Seal` | dataplane/src/core/core_encap_worker.cc:181-182 | clearing, summing 20 bytes and storing makes any header verify and changes no other byte |
| `Tunnel.EncapWorker.constructor` | dataplane/src/core/core_encap_worker.cc:33-67 | the templates hold the fixed header fields |
| `Tunnel.EncapWorker.FillHeaders` | dataplane/src/core/core_encap_worker.cc:180-186 | the outer header verifies and carries source and destination; the three lengths nest |
| `Tunnel.EncapWorker.ModifyPacket` | dataplane/src/core/core_encap_worker.cc:145-207 | succeeds if and only if there is headroom and an IP version bit; the result is a complete capsule around the unchanged packet; otherwise one drop |
| `Tunnel.GreInPlace` | dataplane/src/core/core_gtpu2gre_worker.cc:189-200 | the six stores turn the capsule into a 32-byte header with no-ops and a GRE header over the same 36 bytes |
| `Tunnel.Gtpu2GreWorker.ModifyPacket` | dataplane/src/core/core_gtpu2gre_worker.cc:185-205 | the packet becomes that GRE form, at the same place and length |
| `Tunnel.GretermWorker.Strip` | dataplane/src/core/core_greterm_worker.cc:191-210 | 36 bytes go and the Ethernet header stands in front of the inner packet, frame and packet type set by its version |
| `Tunnel.GretermWorker.ModifyPacket` | dataplane/src/core/core_greterm_worker.cc:160-212 | succeeds if and only if GRE behind a 32-byte header and long enough; otherwise one drop |
| `Tunnel.InnerTypeBits` | dataplane/src/core/core_greterm_worker.cc:191-210 | the packet type afterwards says IPv4, or else IPv6 and not IPv4 |
| `Tunnel.ClassifiedExactly` | dataplane/inc/mixi_pgw_data_plane_def.hpp:451-535 | an untagged frame is encapsulated if and only if it is IPv4 TCP without port 179 or to 10/8, IPv4 UDP but not port 3784 with a time to live of 255, IPv4 ICMP to 10/8, any other IPv4 protocol but OSPF, or IPv6 but not ICMPv6 with hop limit 255; exactly tagged frames are dropped |
| `Tunnel.DecapExactly` | dataplane/inc/mixi_pgw_data_plane_def.hpp:592-641 | untagged IPv4 frames of protocol 47 are terminated, tagged frames dropped, UDP has the open verdict, everything else passes |
| `TunnelTrip.CapsuleIsRewritten` | dataplane/inc/mixi_pgw_data_plane_def.hpp:451-535 | every capsule is classified for rewriting |
| `TunnelTrip.GreIsTerminated` | dataplane/inc/mixi_pgw_data_plane_def.hpp:592-641 | its GRE form is classified for decapsulation if and only if the Ethernet type is IPv4 |
| `TunnelTrip.TerminatedCapsule` | dataplane/src/core/core_greterm_worker.cc:160-212 | terminating the GRE form of a capsule gives back the packet under the type of its version nibble |
| `TunnelTrip.EncapTurn` | dataplane/src/core/core_encap_worker.cc:238-251 | an untagged user frame, told by its bytes, becomes a capsule if there is headroom and a version bit, else is dropped; tagged frames are dropped; every other frame goes on with room, place and type unchanged; drops are counted |
| `TunnelTrip.GreTurn` | dataplane/src/core/core_gtpu2gre_worker.cc:144-158 | untagged user frames become GRE, tagged frames are dropped, every other frame goes on unchanged |
| `TunnelTrip.TermTurn` | dataplane/src/core/core_greterm_worker.cc:113-128 | untagged IPv4 frames of protocol 47 behind a 32-byte header are terminated and typed by their version, other headers and tagged frames dropped, the rest goes on unchanged; drops are counted |
| `TunnelTrip.Unwrap` | dataplane/src/core/core_greterm_worker.cc:96-212 | rewrite and termination give a capsule's packet back, frame and packet type those of its version, if the capsule's type is IPv4 |
| `TunnelTrip.Traverse` | dataplane/src/core/core_greterm_worker.cc:96-212 | through all three workers a frame comes back byte for byte at the same place if and only if it was passed (for UDP: and the open verdict is a pass), or had headroom and its packet type, Ethernet type and version nibble agree |
| `Egress.EgressDistributor.ModifyPacket` | dataplane/src/core/core_pgw_egress_distributor_worker.cc:80-143 | delivered, error indication or drop exactly by the inner version and the lookup of the inner destination with its first byte cleared; a delivered capsule is redirected, others untouched |
| `Egress.EgressDistributor.Redirect` | dataplane/src/core/core_pgw_egress_distributor_worker.cc:120-134 | MACs swapped, addresses, ports and tunnel id replaced, header verifies, lengths and inner packet unchanged |
| `Egress.KeyOfCapsule` | dataplane/src/core/core_pgw_egress_distributor_worker.cc:89-105 | the key found inside a capsule is the outer destination encapsulation wrote, first byte cleared, if type and version agree |
| `Egress.RedirectedCapsule` | dataplane/src/core/core_pgw_egress_distributor_worker.cc:120-134 | a redirected capsule is a GTP-U user packet to the gateway with nested lengths around the unchanged packet |
| `Egress.Deliver` | dataplane/src/core/core_pgw_egress_distributor_worker.cc:80-143 | encapsulation then distribution sends a user packet, told by its bytes, to the gateway found under its own destination, or raises an error indication if the table lacks it |
| `GtpcWire.WalkFindsChain` | ctrlplane/src/pkt/gtp_alloc_packet.c:143-159 | the parse loop finds every chain of at most 255 items below capacity |
| `GtpcWire.WalkIsChain` | ctrlplane/src/pkt/gtp_alloc_packet.c:143-159 | what the parse loop accepts is such a chain |
| `GtpcWire.AcceptedExactly` | ctrlplane/src/pkt/gtp_alloc_packet.c:112-163 | a payload in capacity is taken with given items if and only if its header has a known type or version 1, no piggyback in version 2 and its own length, and the items chain end to end behind 8 bytes (echo) or 12 and are at most 255 |
| `GtpcWire.CapacityRefuses` | ctrlplane/src/pkt/gtp_alloc_packet.c:146-150 | nothing as long as the capacity is taken |
| `GtpcWire.EncodedIsChain` | ctrlplane/src/pkt/gtp_alloc_packet.c:143-159 | an encoded list of IEs is a chain with the expected items |
| `GtpcWire.ChainIsEncoded` | ctrlplane/src/pkt/gtp_alloc_packet.c:143-159 | a chain without short items is the encoding of the IEs it holds |
| `GtpcWire.WellFormedTaken` | ctrlplane/src/pkt/gtp_alloc_packet.c:112-163 | every framed encoding of at most 255 IEs in capacity is taken, with no short item |
| `GtpcWire.PlainIsNoShort` | ctrlplane/src/pkt/gtp_alloc_packet.c:143-159 | a chain has no short item if and only if, walked by its own length fields, none is 65532 or more |
| `GtpcWire.WellFormedExactly` | ctrlplane/src/pkt/gtp_alloc_packet.c:112-163 | a taken payload is an encoding of at most 255 IEs if and only if no length field on the way through its bytes is 65532 or more |
| `GtpcWire.ShortItemAccepted` | ctrlplane/src/pkt/gtp_alloc_packet.c:144-146 | a payload with a one-byte body is taken that no list of IEs encodes to |
| `GtpcPacket.Packet.constructor` | ctrlplane/src/pkt/gtp_alloc_packet.c:32-63 | a new packet is a bare version 2 header with its length and guard |
| `GtpcPacket.Packet.Append` | ctrlplane/src/pkt/gtpc_item_func.c:257-289 | taken if and only if not empty and below capacity; the body grows by the data; header length + 4 = offset, tiling and guard are kept; refused items change nothing |
| `GtpcPacket.Packet.TakeItems` | ctrlplane/src/pkt/gtp_alloc_packet.c:143-159 | the loop accepts exactly what the walk accepts, with its items and body |
| `GtpcPacket.Parse` | ctrlplane/src/pkt/gtp_alloc_packet.c:112-163 | a packet is returned if and only if the payload is acceptable; its items are the accepted ones and its body is the payload's body |
| `GtpcPacket.ReparsesExactly` | ctrlplane/src/pkt/gtpc_item_func.c:257-289 | a built message of at most 255 items parses back to its own items if and only if every item says its own type and length |
| `GtpcPacket.Build` | ctrlplane/src/pkt/gtpc_item_func.c:257-289 | building from IEs succeeds if and only if all of it stays below capacity, and then the body is their encoding |
| `GtpcPacket.RoundTrip` | ctrlplane/src/pkt/gtp_alloc_packet.c:112-163 | up to 255 IEs below capacity come back from build and parse, in order |
| `GtpcPacket.BearerBuilder.AddChild` | ctrlplane/src/pkt/gtpc_item_func.c:853-861 | refused if and only if the 256 bytes would be reached; the header length stays the offset |
| `GtpcPacket.BearerBuilder.Wire` | ctrlplane/src/pkt/gtpc_item_func.c:822-839 | the bytes sent are one encoded IE around the children |
| `GtpcPacket.BearerBuilder.AddAll` | ctrlplane/src/pkt/gtpc_item_func.c:853-861 | adding IEs succeeds if and only if their encoding is below 256 bytes |
| `GtpcState.ParseState.Store` | ctrlplane/src/pkt/gtpc_item_func.c:62-90 | an accepted item raises its flag and overlays the front of its field; the state stays the start with all stores applied |
| `GtpcState.ParseState.IterateBearer` | ctrlplane/src/pkt/gtpc_item_func.c:874-896 | result and stores are those of the specified child walk, 16-bit position and late end check included |
| `GtpcState.ParseState.OnRoot` | ctrlplane/src/pkt/gtpc_item_func.c:60-200 | root dispatch by type and size, Bearer Contexts by the nested walk; `GtpcReceive.LastByNumber` ties both tables to the numbers |
| `GtpcState.ParseState.Iterate` | ctrlplane/src/pkt/gtpc_item_func.c:30-47 | the items in order up to the first error |
| `GtpcTree.ChildrenOfChain` | ctrlplane/src/pkt/gtpc_item_func.c:874-896 | the children of a chain of at most 255 items are those items, and the walk succeeds |
| `GtpcTree.ItemsEncoded` | ctrlplane/src/pkt/gtpc_item_func.c:30-243 | walking a well-formed message succeeds and stores what its nodes stand for, in order |
| `GtpcTree.NeverMixed` | ctrlplane/src/pkt/gtpc_item_func.c:60-243 | a root IE never reaches a nested field, a Bearer Context no field but its four and its flag: c_teid and u_teid never mix |
| `GtpcTree.LastWins` | ctrlplane/src/pkt/gtpc_item_func.c:60-243 | a flag is up if and only if it was or something was fed, and every field is exactly the overlay of all elements fed to it |
| `GtpcTree.LastOnTop` | ctrlplane/src/pkt/gtpc_item_func.c:60-243 | the last element lies on top of its field, is all of it at full size, and a field nothing was fed to keeps its bytes |
| `GtpcTree.TailShows` | ctrlplane/src/pkt/gtpc_item_func.c:103-110 | a shorter element after a full one leaves the tail of the full one in the field |
| `GtpcReceive.RootLast` | ctrlplane/src/pkt/gtpc_item_func.c:60-200 | the last bytes fed to a root field are the last leaf of its number and sizes |
| `GtpcReceive.NestedLast` | ctrlplane/src/pkt/gtpc_item_func.c:201-243 | those fed to a nested field are the last child of its number and sizes over all Bearer Contexts |
| `GtpcReceive.LastByNumber` | ctrlplane/src/pkt/gtpc_item_func.c:60-243 | for every message and field the last feed is the last element by number, size and nesting, found without the dispatch tables |
| `GtpcReceive.Receive` | ctrlplane/src/pkt/gtpc_item_func.c:30-243 | build, parse and walk of up to 255 well-formed nodes succeeds; for each of the fifteen root and four nested element numbers the flag is up if and only if it was or an element of that number and a taken size is there, and the last one lies on top of its field; every field is the overlay of all of them |
| `GtpcReceive.ReceiveNumber` | ctrlplane/src/pkt/gtpc_item_func.c:407-416 | an IMSI, MSISDN or MEI that is the last of its kind in a message is the number read after the walk |
| `Digits.DecFits` | ctrlplane/src/pkt/gtpc_item_func.c:380-381 | every 64-bit number prints in at most 20 digits, so the print buffer never cuts |
| `Digits.Set` | ctrlplane/src/pkt/gtpc_item_func.c:378-395 | succeeds if and only if the digits fit; packed low nibble first, filler behind, all filler on failure |
| `Digits.Get` | ctrlplane/src/pkt/gtpc_item_func.c:344-365 | the number of the collected text, or the error value on overflow or a stale errno |
| `Digits.ShowIsDec` | ctrlplane/src/pkt/gtpc_item_func.c:344-365 | a nibble is collected as its decimal print, those above nine as two digits |
| `Digits.TextOfPacked` | ctrlplane/src/pkt/gtpc_item_func.c:344-365 | reading packed digits collects the digits, odd counts and filler included |
| `Digits.ReadsBack` | ctrlplane/src/pkt/gtpc_item_func.c:344-395 | for every length that holds them the packed digits of a number parse to it |
| `Digits.RoundTrip` | ctrlplane/src/pkt/gtpc_item_func.c:344-395 | set then get gives the number back if and only if errno was not left at ERANGE or the number is 2^64 - 1 |
| `TailQueue.RunIsFifo` | ctrlplane/src/cmn/enq.c:29-61 | over every run: taken in = taken out followed by waiting, in order; drops = offered - taken in; the limit holds |
| `TailQueue.Queue.constructor` | ctrlplane/inc/queue.h:492-495 | the empty queue is well linked |
| `TailQueue.Queue.InsertTail` | ctrlplane/inc/queue.h:509-515 | the element joins at the end and all links hold both ways |
| `TailQueue.Queue.Remove` | ctrlplane/inc/queue.h:536-545 | an element at any position leaves and all links hold both ways |
| `TailQueue.Queue.Enq` | ctrlplane/src/cmn/enq.c:29-61 | the linked queue does what the bounded FIFO does |
| `TailQueue.Queue.DeqBurst` | ctrlplane/src/cmn/deq_burst.c:32-62 | the oldest packets leave in order into the array: all that wait or as many as asked for, and one for a length of 0 |
| `TailQueue.Execute` | ctrlplane/src/cmn/deq_burst.c:32-62 | any list of operations that offers no packet while it waits keeps the links and the count and ends as the FIFO's run ends; a packet may come again after it left or was dropped |

## Left out

- DPDK set-up, NIC binding, memory pools and ring creation: library calls and fixed configuration.
- LoadConfig and SwapConfig: what they read and copy; the protocol only uses when they run.
- Virtual cores in App::Dispatch: they take no part in the ack protocol, and only burst under BUSYLOOP.
- The signal handler taking the spinlock that an interrupted thread may hold: signals are steps of their own.
- Wrap-around of the 64-bit table clock.
- Lookup::operator[]: it adds nothing to Add.
- Lookup.Table.constructor: sizes are multiples of 64; the source's bitmap has S/64 words (dataplane/inc/lookup_tpl.hpp:68), so for other sizes its last keys have no word.
- SendOrBuffer of the core base class: blocks handed to it are taken as sent; loss between cores is not modelled.
- HasDropped, which reads and clears drop counters for logging.
- `output_cnt_pass_through_` is not set by its constructor; the model starts it at 0.
- CounterCycle.Worker.Cycle: one body for the ingress and egress cycles, which are the same text; the mode and colour of a packet are taken as given by the policer.
- CounterCycle.Outlet.SendOrBuffer: without a ring attached a packet is neither passed on nor freed; the contract then says only that nothing changes.
- The SQL text of the rows, and the insert statement without rows that a burst of all-zero records renders: the database result is a parameter.
- TunnelTrip.GreTurn: burst loops and forwarding buffers of the three tunnel workers; the turn is per packet.
- check_decapability for UDP in the GRE build ends without a return value; the verdict the caller then sees is a parameter.
- The build without GRE, the ingress distributor, the tunnel worker with policing and the transmit core.
- error_indicate: a missing subscriber is a fate of its own.
- GTPv1 messages beyond the header check, whose version 1 branch is modelled.
- GtpcPacket.Parse: tunnel id and sequence number are not copied into the parsed packet, in the source neither; the packet leaked on a malformed last item is not modelled.
- GtpcState.ParseState.OnRoot: the PCO container is stored, the option flags of its inner walk are not modelled.
- GtpcReceive.Receive: Bearer Contexts have 1 to 255 children; an empty one makes the walk fail in the source and in `GtpcState.Children`.
- GtpcState.ParseState.Iterate: 300 bytes behind the packet are taken as readable, since children are read before the end is checked.
- The other IE setters and length accessors: they would only add members like the modelled ones.
- TailQueue.Queue.Enq: ingress and egress queues are the same code and are modelled once; the mutex makes each operation one step; the log line per hundred drops is left out.
- The remaining TAILQ macros, which these queues do not use.
