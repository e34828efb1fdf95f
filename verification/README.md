# Verified models of five instro components

This project models five components of instro and proves what they promise of
every input, every run or every reachable state.

- **OPC UA address-space browse** (`Browse*.dfy`). The walk that keeps parents
  and children in one vector, with a stack of `(index, limit)` frames, is
  proved equal to a recursive walk; that one is proved equal to the
  depth-bounded unfolding of the graph, and its success, its errors and every
  position of its result are stated over the graph alone. The address space is
  a finite map of answers, so a browse of a node is deterministic and may fail.
- **OPC UA subscription pump** (`Pump*.dfy`). The loop is a method over a list
  of chosen events (ticks with their read replies, chunks of notifications, the
  end of the stream), proved equal to a state machine; the theorems are about
  all its runs.
- **Simulated power supply** (`Psu*.dfy`). Commands act on objects whose fields
  the handlers assign (`PsuDevice`), proved equal to a function of the whole
  supply (`Psu`); the interlocks and circuit laws hold in every reachable
  state (`PsuTheorems`). Arithmetic is over reals, with an open load as its own
  case.
- **Modbus configuration and access** (`Modbus*.dfy`). The configuration's
  validators as methods proved to decide `Accepted`; and what an accepted
  configuration guarantees of group reads, polling, writes and read-back, down
  to the bytes on the wire.
- **I2C bit fields and DAQ timing** (`Bits.dfy`, `I2c.dfy`, `Daq*.dfy`).
  Two's-complement slicing, packing and field read-modify-write over
  unbounded two's-complement integers; contiguous timestamps; and the hand-off
  of whole acquisitions as interleaved steps of one daemon and any readers.

Where the code and its documentation differ, the code is followed:
`_wait_for_acquisition` speaks of the next complete acquisition, but returns
the latest one, which is the next exactly if just one was published meanwhile
(`DaqHandoff.FinishOutcome`, with a failing run in `DaqHandoff.ReaderMaySkip`);
and a scale is accepted on a boolean holding register, whose writes then read
back only for two values (`ModbusWrite.ScaledBoolReadsBackIff`).

## Model

| member | source | states |
|---|---|---|
| Browse.BrowseIterative | crates/instro-opcua/src/browse.rs:189-208 | The in-place browse returns the forest and visit count of the recursive walk, or its very error |
| Browse.BrowseLoop | crates/instro-opcua/src/browse.rs:210-286 | The vector-and-stack loop, from the first sibling list, equals visiting each node completely before the next; no index is out of bounds and the loop ends on every finite space, cyclic or not, with or without limits |
| Browse.StackIsAncestry | crates/instro-opcua/src/browse.rs:202-286 | In every state of the loop the stack has one frame per distinct ancestor, each starting where the one below ends, and each below the top standing at its ancestor in the vector |
| Browse.StackIsShort | crates/instro-opcua/src/browse.rs:202-286 | In every state of the loop the stack is as high as there are ancestors, and no higher than the number of browsable ids and two |
| Browse.CloseFrame | crates/instro-opcua/src/browse.rs:263-285 | Closing a frame splits the vector at the parent's limit, hands the tail to the parent, advances it and leaves the rest |
| Browse.AppendPathsInPlace | crates/instro-opcua/src/browse.rs:155-178 | The in-place loop rewrites the children one by one as the function does on the list |
| Browse.PathsOrFirstWithout | crates/instro-opcua/src/browse.rs:155-178 | Below a start path all children get one unless some has no segment of its own, and the error names the first such; without a start path they stay as they are |
| BrowseTheorems.BrowseIsUnfolding | crates/instro-opcua/src/browse.rs:189-286 | A browse succeeds exactly if the depth-bounded unfolding repeats no ancestor, can be browsed and fits the node limit; it then returns that unfolding, shared nodes once per path, and the count is its size |
| BrowseTheorems.BrowseSucceedsIff | crates/instro-opcua/src/browse.rs:58-80 | Success in terms of the graph: every walk from the root within the cap (and one reference past the last browsed node) is free of repeats and browsable, and the unfolding fits the node limit |
| BrowseTheorems.BrowseSucceedsIffAcyclic | crates/instro-opcua/src/browse.rs:202-253 | Without a depth cap success is freedom from repeats on all walks of any length |
| BrowseTheorems.WalksAreShort | crates/instro-opcua/src/browse.rs:202-253 | A walk of the graph that repeats nothing has at most one node more than there are browsable ids, so without a depth cap the unfolding is finite |
| BrowseTheorems.BrowsePositions | crates/instro-opcua/src/browse.rs:155-286 | Position by position: which positions exist, which node each holds, and that its path is the start path, one segment per ancestor, and its own |
| BrowseErrors.ErrorsAreReal | crates/instro-opcua/src/browse.rs:219-244 | A reported cycle is a walk from the root within the cap that returns to one of its own nodes; a node reported past the limit is reached by such a walk, and the unfolding has more nodes than the limit |
| BrowsePaging.BrowseNodePaged | crates/instro-opcua/src/browse.rs:104-152 | Given the answers so far, the continuation loop returns one node per collected reference, in order, or the first error, or is still waiting for an answer |
| BrowsePaging.NodesSayReferences | crates/instro-opcua/src/browse.rs:129-149 | One node per collected reference, in order, with its id, browse name, display name and class, no children, and one segment: hierarchical references with subtypes, inverse exactly if the reference is, to its browse name |
| BrowsePaging.ResultIsFinal | crates/instro-opcua/src/browse.rs:111-127 | Once there is a result, further answers are never asked for |
| BrowsePaging.PagingIsTransparent | crates/instro-opcua/src/browse.rs:18-22 | However the server splits its references into pages, all are collected, in order |
| BrowsePaging.ClientGivesOneSegment | crates/instro-opcua/src/browse.rs:129-149 | Nodes the client itself builds have one-element paths, as the position theorem needs |
| Pump.SubscriptionLoop | crates/instro-opcua/src/client.rs:392-498 | The loop over any events leaves exactly the state machine's quiet set, buffer, output and requests |
| Pump.HandleChunk | crates/instro-opcua/src/client.rs:460-478 | A chunk handled item by item is the fold of single notifications |
| PumpTheorems.ReleasedIff | crates/instro-opcua/src/client.rs:503-517 | In any run a notification releases the sample awaiting it exactly if its source time or its server time is strictly earlier; equal, newer or missing times release nothing, and the notification alone comes out |
| Pump.StaysStopped | crates/instro-opcua/src/client.rs:437-437 | A pump that stopped hears nothing more |
| PumpTheorems.QuietIs | crates/instro-opcua/src/client.rs:404-457 | The quiet set is the batch without every node heard since the last tick that did not end in a read error |
| PumpTheorems.PolledSet | crates/instro-opcua/src/client.rs:430-457 | A tick requests exactly that set, and nothing when it is empty |
| PumpTheorems.BufferIs | crates/instro-opcua/src/client.rs:422-475 | The buffer is the last tick's reply without the nodes heard since, so extending it overwrites nothing |
| PumpTheorems.UnansweredAreFlushed | crates/instro-opcua/src/client.rs:424-428 | Every polled sample no notification answered is emitted at the next tick or the exit, and nothing is buffered after an exit |
| PumpTheorems.PolledSamplesAreConserved | crates/instro-opcua/src/client.rs:423-497 | Over every run, each sample is returned by polls as often as it was emitted, is still held, or was dropped for a same-node notification not newer |
| PumpTheorems.NotificationsInOrder | crates/instro-opcua/src/client.rs:460-478 | The notifications in the output are the ones heard, in arrival order |
| PumpTheorems.ReleasedBeforeNewer | crates/instro-opcua/src/client.rs:466-475 | A released polled sample stands right before a same-node notification whose source or server time is strictly later |
| PumpOrder.OutputInTimeOrder | crates/instro-opcua/src/client.rs:386-391 | With server timestamps only: if a node's notifications come in time order, none is older than a poll already flushed, and no stored poll is older than what was emitted, the node's output is nondecreasing |
| PumpOrder.OutputInTimeOrderIff | crates/instro-opcua/src/client.rs:404-517 | Whatever source timestamps there are, under the same hypotheses a node's output is nondecreasing exactly when no notification releases a polled sample with a later server time than its own |
| PumpOrder.SourceTimesCanDisorder | crates/instro-opcua/src/client.rs:503-517 | An instance of disorder: a poll and a notification whose source times and server times disagree come out as they are, under a timely server |
| PumpOrder.DroppedPollsDoNotCount | crates/instro-opcua/src/client.rs:460-475 | A polled sample dropped as stale binds nothing after it: a later notification may be older, and the order holds |
| Psu.Find | instro/psu/scpi_sim_server.py:182-186 | The first channel with an id, or the end if there is none |
| PsuDevice.SimulatedChannel.UpdateVoltageSource | instro/psu/scpi_sim_server.py:544-577 | Assigns the readings the circuit solution gives, in CV or CC |
| PsuDevice.SimulatedChannel.Update | instro/psu/scpi_sim_server.py:512-542 | Brings one channel up to date, with the trip it reports |
| PsuDevice.SimulatedPsu.FindChannel | instro/psu/scpi_sim_server.py:182-186 | The scan finds the first channel with the id |
| PsuDevice.SimulatedPsu.UpdateChannels | instro/psu/scpi_sim_server.py:508-510 | The loop over the channels re-solves every one, errors queued in channel order |
| PsuDevice.SimulatedPsu.SetVoltage | instro/psu/scpi_sim_server.py:279-290 | The handler leaves the supply that Execute specifies, accepted or rejected |
| PsuDevice.SimulatedPsu.SetCurrent | instro/psu/scpi_sim_server.py:298-309 | The same for the current limit |
| PsuDevice.SimulatedPsu.SetOcpLevel | instro/psu/scpi_sim_server.py:317-332 | The same for the overcurrent level |
| PsuDevice.SimulatedPsu.SetOvpLevel | instro/psu/scpi_sim_server.py:354-369 | The same for the overvoltage level |
| PsuDevice.SimulatedPsu.SetOcpState | instro/psu/scpi_sim_server.py:340-348 | The same for overcurrent protection on and off |
| PsuDevice.SimulatedPsu.SetOvpState | instro/psu/scpi_sim_server.py:377-385 | The same for overvoltage protection on and off |
| PsuDevice.SimulatedPsu.SetRemoteSense | instro/psu/scpi_sim_server.py:433-441 | The same for remote sensing |
| PsuDevice.SimulatedPsu.SetOutput | instro/psu/scpi_sim_server.py:393-405 | The same for the output, whose enabling releases the latch |
| PsuDevice.SimulatedPsu.ClearProtectionLatch | instro/psu/scpi_sim_server.py:416-423 | The same for clearing the latch |
| PsuDevice.SimulatedPsu.MeasureVoltage | instro/psu/scpi_sim_server.py:449-455 | Updates first, then answers the sensed voltage, or 0 for an unknown channel |
| PsuDevice.SimulatedPsu.ResetChannels | instro/psu/scpi_sim_server.py:256-272 | Reset keeps only limits, load and sensing of each channel and clears the errors |
| PsuDevice.SimulatedPsu.NextError | instro/psu/scpi_sim_server.py:251-254 | Takes the oldest error |
| PsuDevice.SimulatedPsu.PromptLoad | instro/psu/scpi_sim_server.py:1525-1542 | The operator's change of load, then an update |
| PsuDevice.SimulatedPsu.PromptVoltageMax | instro/psu/scpi_sim_server.py:1556-1571 | The operator's change of the voltage maximum, then a reset of every channel |
| PsuDevice.SimulatedPsu.PromptCurrentMax | instro/psu/scpi_sim_server.py:1556-1575 | The same for the current maximum |
| PsuDevice.SimulatedPsu.Dispatch | instro/psu/scpi_sim_server.py:202-230 | Every command and operator action reaches its handler, leaves the supply Execute specifies, and keeps the objects in order |
| PsuDevice.SimulatedPsu.Serve | instro/psu/scpi_sim_server.py:193-230 | So does a whole session of commands |
| PsuTheorems.ExecuteKeepsOk | instro/psu/scpi_sim_server.py:256-442 | Every command, accepted or rejected, keeps setpoint, level and maximum ordered, latch and trip flags consistent, and every channel settled |
| PsuTheorems.RunsStayOk | instro/psu/scpi_sim_server.py:98-145 | So it is after any run from a supply as built, whatever its loads |
| PsuTheorems.OkMeans | instro/psu/scpi_sim_server.py:512-542 | Off exactly in mode Off with zero readings; an enabled protection's level is respected; latched means off with one trip flag |
| PsuTheorems.CommandsAreIsolated | instro/psu/scpi_sim_server.py:508-510 | A command changes no channel but the one addressed, though all are re-solved, and queues at most one error |
| PsuTheorems.QueriesChangeNothing | instro/psu/scpi_sim_server.py:449-462 | Queries and measurements leave every channel as it is |
| PsuTheorems.OnlyEnableTurnsOn | instro/psu/scpi_sim_server.py:393-405 | Only an output-enable command to that very channel turns an output on |
| PsuTheorems.SettingWindow | instro/psu/scpi_sim_server.py:279-369 | A number is accepted exactly in the window range and interlock leave together; it then reads back and nothing else moves, else one error and no change |
| PsuTheorems.KeywordSets | instro/psu/scpi_sim_server.py:485-490 | MAX makes a setting answer its own maximum and MIN or DEF zero, if the interlock allows it; otherwise its interlock error is queued and nothing changes |
| PsuTheorems.RefusalSays | instro/psu/scpi_sim_server.py:279-369 | Which error refuses any other token: not a number, out of range, or against the interlock; nothing else changes |
| PsuTheorems.BuiltMaxima | instro/psu/scpi_sim_server.py:106-145 | A supply as built takes up to 60 volts and 10 amperes |
| PsuTheorems.SwitchReadsBack | instro/psu/scpi_sim_server.py:340-447 | A switch set reads back and no other setting moves |
| PsuTheorems.SwitchRefuses | instro/psu/scpi_sim_server.py:476-506 | A token that names no state of a switch or of the output is refused and changes nothing |
| PsuTheorems.OutputTakesEffect | instro/psu/scpi_sim_server.py:393-423 | After enabling, the output is on exactly if the solved circuit trips nothing; disabling and clearing the latch change only that |
| PsuTheorems.Solution | instro/psu/scpi_sim_server.py:544-577 | The mode and current for every load without dividing: an open load, no resistance, positive and negative resistance |
| PsuTheorems.Regulation | instro/psu/scpi_sim_server.py:544-577 | For every load: setpoint or limit is met exactly, the current never passes the limit, and the voltage passes the setpoint exactly for the overshooting loads |
| PsuTheorems.OhmsLaw | instro/psu/scpi_sim_server.py:552-577 | For a finite load both voltage drops are current times resistance, in both modes |
| PsuTheorems.WhenProtectionTrips | instro/psu/scpi_sim_server.py:512-542 | Overvoltage trips exactly on an overshooting load past the level; overcurrent, otherwise, exactly on reverse current past the level |
| PsuTheorems.PassiveLoads | instro/psu/scpi_sim_server.py:512-577 | In a reachable state with positive or infinite total resistance both limits hold, one with equality, and no setting can trip overvoltage |
| PsuTheorems.ShortedEmfTrips | instro/psu/scpi_sim_server.py:544-577 | Without the condition on the load overvoltage does trip |
| PsuTheorems.TripRepeats | instro/psu/scpi_sim_server.py:393-542 | A trip latches the channel off with the flag of the protection that tripped, and enabling again with nothing changed repeats it |
| PsuTheorems.ResetForgets | instro/psu/scpi_sim_server.py:256-272 | Reset depends on maxima, load and sensing alone, is idempotent, and leaves outputs off, setpoints zero and protections wide open |
| ModbusWire.IntegerRanges | instro/modbus/types.py:109-117 | The ranges of the six integer types |
| ModbusWire.SwapsCancel | instro/lib/transports/modbus.py:37-132 | The receiver undoes the sender's byte, word and long swaps in every combination |
| ModbusWire.ReceivedBytes | instro/lib/transports/modbus.py:47-64 | Which byte each combination of swaps puts at each position of a 2, 4 or 8 byte value |
| ModbusWire.WireOrder | instro/lib/transports/modbus.py:66-83 | Registers are big-endian at 16, 32 and 64 bits, signed ones in two's complement, and a boolean is any nonzero word |
| ModbusWire.WireRoundTrip | instro/lib/transports/modbus.py:37-132 | An integer in range encodes and decodes to itself for every type and swap |
| ModbusWire.WireIntIsNearest | instro/lib/transports/modbus.py:94-106 | The integer sent is the nearest to the value, the even one of two |
| ModbusWire.TruncDropsFraction | instro/modbus/modbus.py:376-378 | int() drops the fraction toward zero |
| ModbusWire.RoundWithin | instro/modbus/modbus.py:389-425 | Rounding and truncating stay within integer bounds |
| ModbusConfig.ValidateRegister | instro/modbus/types.py:193-338 | The checks in order accept exactly the registers that meet all cross-field rules, coercing bit registers to bool |
| ModbusConfig.CoercedIsOk | instro/modbus/types.py:327-335 | Coercion makes bit registers bool, changes nothing else, and keeps an accepted register accepted |
| ModbusConfig.PlainBounds | instro/modbus/types.py:90-160 | The bounds of addresses and bit indices, and that only a zero gain is refused |
| ModbusConfig.OverlapIsShared | instro/modbus/types.py:398-428 | Registers overlap exactly if they are of one type and some address belongs to both |
| ModbusConfig.SpanLimits | instro/modbus/types.py:477-495 | A group fits exactly if its span is at most 125 registers or 2000 bits |
| ModbusConfig.ValidateValueMap | instro/modbus/types.py:249-309 | The scan accepts exactly maps of distinct values each of which passes the per-entry checks |
| ModbusConfig.ValidateBits | instro/modbus/types.py:317-325 | The scan accepts exactly distinct bit indices |
| ModbusConfig.FindDuplicates | instro/modbus/types.py:386-445 | The names reported are exactly those that occur twice |
| ModbusConfig.ValidateUniqueNames | instro/modbus/types.py:430-445 | Accepts exactly if all register and bit names differ |
| ModbusConfig.ValidateNoOverlap | instro/modbus/types.py:398-428 | Grouping by type, sorting and comparing pairs accepts exactly pairwise disjoint registers |
| ModbusConfig.SortNoOverlap | instro/modbus/types.py:404-405 | Sorting by address changes nothing about overlaps |
| ModbusConfig.ValidateGroupTypes | instro/modbus/types.py:447-465 | Accepts exactly if grouped registers are polled and of one type per group |
| ModbusConfig.BuildGroupIndex | instro/modbus/types.py:467-475 | The index has exactly the groups named, each with its registers in address order |
| ModbusConfig.ValidateGroupSpan | instro/modbus/types.py:477-495 | Accepts exactly if every group's span fits 125 registers or 2000 bits |
| ModbusConfig.ValidateConfig | instro/modbus/types.py:358-384 | The validators in sequence, the protocol check first, decide acceptance |
| ModbusRead.BuildRegisterChannels | instro/modbus/modbus.py:241-254 | The loop emits the register's channel and one per bit |
| ModbusRead.ChannelKeys | instro/modbus/modbus.py:241-254 | Exactly one channel for each of a register's names |
| ModbusRead.ChannelContents | instro/modbus/modbus.py:241-254 | In an accepted configuration the offset plus the gain times the raw value stands under the register's name, and each bit of the raw value under that bit's name |
| ModbusRead.ReadsItsTable | instro/lib/transports/modbus.py:294-324 | Each register type is read from its own table at its address |
| ModbusRead.ReadGroupOnce | instro/modbus/modbus.py:197-239 | One request, sliced register by register, equals the specified group read, errors included |
| ModbusRead.GroupWindow | instro/modbus/types.py:398-495 | In an accepted configuration a group's one request is legal and every register of the group lies inside it |
| ModbusRead.OverlapLeavesWindow | instro/modbus/types.py:398-428 | Without the overlap validator a register can run past the window |
| ModbusRead.GroupReadAgrees | instro/modbus/modbus.py:178-239 | A group read of an accepted configuration succeeds and its channels are exactly those of the individual reads, none lost to a name clash |
| ModbusRead.DefineBackgroundDaemon | instro/modbus/modbus.py:93-102 | Each cycle reads every polled register exactly once and no other |
| ModbusWrite.MapEntryAgrees | instro/modbus/types.py:249-309 | A map entry passes the configuration's checks exactly if the runtime accepts writing it |
| ModbusWrite.KeyResolves | instro/modbus/modbus.py:281-292 | A key of the map stands for its value; another is unknown; without a map every key is refused |
| ModbusWrite.WhatIsRefusedFirst | instro/modbus/modbus.py:337-350 | Read-only tables are refused first, then values past the lower and the upper limit |
| ModbusWrite.WhatIsAccepted | instro/modbus/modbus.py:352-425 | Of the rest exactly the values of the right kind are accepted that, for an integer type, come to an integer in its range, to a millionth under a scale; and which error the others get |
| ModbusWrite.MappedKeysAreWritable | instro/modbus/modbus.py:280-305 | Every key of an accepted register's map can be written |
| ModbusWrite.LimitsKeepRange | instro/modbus/types.py:233-247 | With both limits, no value between them meets a data-type range error, for either sign of the gain |
| ModbusWrite.LimitRange | instro/modbus/types.py:233-247 | Which limits are accepted: between the physical values of the least and greatest raw value, for either sign of the gain |
| ModbusWrite.BothLimitsAreNeeded | instro/modbus/types.py:233-247 | For an accepted integer holding register, no value within the limits meets a data-type range error exactly when both limits are configured, for either sign of the gain |
| ModbusWrite.WriteReadsBack | instro/modbus/modbus.py:389-425 | An accepted integer write reads back exactly, or within 1e-6 times the gain's size under a scale |
| ModbusWrite.FloatReadsBackIff | instro/lib/transports/modbus.py:106-132 | An accepted float write, for either width, every swap and scale, reads back as written exactly if the format holds its raw value |
| ModbusWrite.BitReadsBack | instro/modbus/modbus.py:302-306 | An accepted write to a coil or an unscaled boolean register reads back as written |
| ModbusWrite.ScaledBoolReadsBackIff | instro/modbus/types.py:193-232 | A scaled boolean register reads back as written exactly for the offset and the offset plus the gain |
| ModbusWrite.ScaledBoolCanDrift | instro/modbus/types.py:193-232 | With a gain of two a written 1 reads back as 2 |
| ModbusWrite.OthersUnchanged | instro/modbus/modbus.py:265-320 | A write leaves every other register of an accepted configuration reading as before |
| ModbusWrite.ModbusDevice.Lookup | instro/modbus/types.py:515-521 | Finds the register of a name, or there is none |
| ModbusWrite.ModbusDevice.Read | instro/modbus/modbus.py:178-195 | The named register's channels on the current memory |
| ModbusWrite.ModbusDevice.ReadGroup | instro/modbus/modbus.py:197-239 | The named group's channels from one transaction |
| ModbusWrite.ModbusDevice.Write | instro/modbus/modbus.py:265-320 | Resolves, validates, scales and stores as specified; a refused write changes nothing |
| Bits.BitwiseBit | instro/i2c/types.py:101-138 | Bit k of an and, or, xor is that of its operands, for negative integers too |
| Bits.SameBits | instro/i2c/types.py:101-138 | An integer is determined by its bits |
| Bits.FitsIff | instro/i2c/i2c.py:228-228 | A value fits n bits exactly if no bit from n on is set |
| Bits.LowBits | instro/i2c/types.py:101-138 | Masking with ones is the remainder modulo a power of two |
| I2c.SignExtendIsTwosComplement | instro/i2c/types.py:101-113 | Xor and subtract is two's complement, whatever lies above the field |
| I2c.PackThenExtract | instro/i2c/types.py:115-138 | Packing accepts exactly the field's signed or unsigned range, and extracting undoes it |
| I2c.PackWithoutWidth | instro/i2c/types.py:125-138 | A format without bits packs only an unsigned zero |
| I2c.PackIsLosslessIff | instro/i2c/types.py:125-138 | Packing loses nothing exactly for fields inside the transfer |
| I2c.ExtractThenPack | instro/i2c/types.py:115-138 | Extracting and packing keeps the field and clears all other bits |
| I2c.MergeThenRead | instro/i2c/i2c.py:213-226 | A merged field reads as the value modulo two to its width; fields apart from it as before |
| I2c.MergeFitsIff | instro/i2c/i2c.py:223-228 | Every merge fits the register exactly if the field lies inside it |
| I2c.ByteOrder | instro/i2c/i2c.py:125-127 | Which byte counts 256 in either order |
| I2c.BytesRoundTrip | instro/i2c/i2c.py:125-228 | What fits is read back, in either byte order |
| I2c.FieldWriteReadsBack | instro/i2c/i2c.py:149-230 | A field written through the bus reads back modulo two to its width; fields apart from it and other locations are unchanged, and the data always fits |
| I2c.WholeWriteReadsBack | instro/i2c/types.py:115-145 | Packed data written to a whole register reads back as the offset plus the gain times the data, or the data itself without a scaling |
| I2c.ReadMeans | instro/i2c/i2c.py:149-179 | For any response a read publishes the offset plus the gain times the two's-complement number in the format's field, or a field's bits as a number |
| I2c.ReadsLocation | instro/i2c/i2c.py:105-127 | Where a 16-bit read looks, for both address widths, and how it takes the bytes found there |
| I2c.WhenReadable | instro/i2c/i2c.py:105-112 | Which reads fail and how: address width, address, transfer width |
| I2c.FieldWritesCommute | instro/i2c/i2c.py:211-230 | Whole writes of two separate fields of a register leave the bus the same in either order |
| I2c.PrefixSharedIff | instro/i2c/i2c.py:105-112 | Registers share an address prefix exactly if equal, or equal modulo 256 with one address byte |
| I2c.PrefixIs | instro/i2c/i2c.py:105-112 | The address bytes: the low one, or two with the high one first |
| I2c.I2cInterface.Read | instro/i2c/i2c.py:149-179 | The field of what the register holds, or the whole register in physical units, or the error |
| I2c.I2cInterface.Write | instro/i2c/i2c.py:192-230 | The bus after a write is the specified one; a failed write leaves it alone |
| DaqTiming.HwTimestamper.Seed | instro/daq/daq.py:63-68 | The first batch ends at the wall time; an empty one is refused |
| DaqTiming.HwTimestamper.NextBatch | instro/daq/daq.py:70-75 | A batch continues from the last timestamp, which it then replaces |
| DaqTiming.GapsAreSpacings | instro/daq/daq.py:52-75 | Over any batches each gap is the spacing of the later sample's batch |
| DaqTiming.TimelineIncreases | instro/daq/daq.py:52-75 | With positive spacings all timestamps increase strictly |
| DaqHandoff.RunsStayConsistent | instro/daq/daq.py:1557-1582 | Under every interleaving lock, count, acquisition and history agree |
| DaqHandoff.ReadersGetWholeAcquisitions | instro/daq/daq.py:1565-1582 | A reader that returned holds one whole acquisition numbered past the count it began with; one that raised saw none published |
| DaqHandoff.FinishOutcome | instro/daq/daq.py:1565-1582 | For every run from the look to the finish: a reader raises exactly if nothing was published meanwhile, otherwise returns the latest acquisition, and that is the next one exactly if just one was published |
| DaqHandoff.WakeOutcome | instro/daq/daq.py:1574-1576 | A waiting reader goes on exactly if something was published since it looked, the daemon is gone or time is up |
| DaqHandoff.LookOutcome | instro/daq/daq.py:1572-1581 | A reader that finds the daemon alive waits from the current count and gives up the lock; once the daemon has stopped it raises at once |
| DaqHandoff.HolderMoves | instro/daq/daq.py:1557-1582 | Whoever has the lock can move and frees it within two moves |
| DaqHandoff.FreeLockCanBeTaken | instro/daq/daq.py:1557-1582 | A free lock can be had by a daemon with a batch and by any reader outside or waiting |
| DaqHandoff.ReaderMaySkip | instro/daq/daq.py:1566-1582 | A run from the start in which two are published while a reader waits, and it returns the second |

## Left out

- I/O and hosts: sockets, VISA, serial lines, runtimes, PKI, the OPC UA and Python bindings, `StreamSession` threads, cancellation and timers; a read reply, a page of references and an event are inputs.
- Browse counters saturate at the word size in the source and are unbounded here; a limit is at most that size, so the comparison is the same unless that many nodes are visited.
- A server that never stops giving continuation points: the loop then never returns; here every finite part of its answers leaves the client waiting.
- BrowseTheorems.BrowseSucceedsIff: assumes one-element paths from every browse, as the client builds them; a child without a path segment is an error covered by the loop and the unfolding theorem.
- BrowseErrors.ErrorsAreReal: assumes that browsing one node fails with a failure of its own, not with a cycle or limit error.
- The order in which a drained hash map is emitted: one flush is a map.
- A successful read whose nodes are not the requested ones: `read_nodes` compares lengths and pairs by position, so any other set of nodes is the length mismatch here.
- PSU text: header spelling, number parsing, the log and measurement noise; commands start parsed. Adding and removing channels, loads that two channels share, infinite or undefined numbers other than an open load's resistance.
- The scalar attributes of a simulated channel are grouped into records (settings, readings, protection), so a handler assigns a record with one field changed.
- PSU query handlers that only format a field; `Query` stands for all of them.
- Modbus connection settings, JSON loading, type coercion by the schema library, publishing, timestamps, write delay, the shutdown and open checks, error messages.
- IEEE 754: float registers go through a format given as a parameter, whose overflow, rounding, NaN and infinities are not modelled; scales and limits are real numbers.
- ModbusConfig.ValidateUniqueNames: the source's two name validators are one, since the second repeats the first's comparison; the list it scans is ordered by register here.
- The lists the validators sort in place are values here, sorted by a stable insertion sort.
- I2C custom scaling functions, `raw_from_float`, enumerated query commands, raw reads and writes without a register, the driver; registers that were never written answer zeros.
- The lock held over a field's read-modify-write: one write is one step; what it buys is `I2c.FieldWritesCommute`.
- DAQ timeouts are an arbitrary waking step; liveness, the fetch itself, channels and drivers are not modelled.
