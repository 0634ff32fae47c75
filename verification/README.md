# PowerPack: a verified model

PowerPack collects power readings from meters and matches them to tagged regions
of a running program. This project models its protocols, its shared state and its
arithmetic, and proves what they keep over every input, every run and every
interleaving.

| file | what it models |
|---|---|
| `Basics.dfy`, `Bytes.dfy`, `Reals.dfy` | optional values, searching and joining; little-endian integers; reals and their conversion to unsigned |
| `Session.dfy` | framing of START, TAG and END, and what a server makes of any byte stream |
| `SocketUtils.dfy` | socket client, socket server and event handler as objects; reads that return any part of what was asked |
| `ShortReads.dfy`, `LiteralServer.dfy` | what the code's int pointer and unrepeated reads deliver when a block arrives in pieces, and what the server then makes of a connection |
| `Handshake.dfy` | client and server as two processes over two byte channels |
| `Netmeter.dfy`, `SharedReadings.dfy` | the power packet, and the NI server's readings shared by one writer and many readers |
| `Mailbox.dfy`, `WattsRecord.dfy` | the Watts Up driver: its one-slot mailbox and its record parser |
| `Slots.dfy`, `LogControl.dfy`, `WindowAverage.dfy` | the meter servers: connection table, log files, accumulate-and-reset averages |
| `Matrix.dfy` | the example client's matrix product |
| `Averaging.dfy` | channel averages and their conversion to power |
| `Energy.dfy`, `Rapl.dfy` | energy integration of the logger, processor energy counters |
| `StringBuffer.dfy`, `BlockStream.dfy` | the growable string buffer, the 100-integer block stream |
| `Config.dfy` | the key=value configuration file |

Two styles are used together. Code that changes things in place is a class or a
method with loops, and its postcondition ties the new state to a specification
function. The theorems about whole runs are lemmas about those functions. Where
several threads or processes share state, each atomic step is a value of a
datatype `Action`, `Exec` applies a list of actions, and a lemma about every list
is a lemma about every interleaving.

Where the code falls short of what it is for, a lemma says for which inputs it
meets its purpose, in both directions where the name ends in `Exactly`:

- The server advances an int pointer by a byte count, so a block that arrives in
  more than one read is scattered and written beyond its destination
  (`ShortReads.UnsetDeliversExactly`, `ShortReads.StaysInsideExactly`); only a tag's
  NUL may come late (`ShortReads.TagArrivesExactly`). Two time stamps are taken by a
  read that is not repeated (`ShortReads.SingleReadDeliversExactly`).
  `LiteralServer.ServesExactly` says for which fragmentations the server serves a
  connection all the same; `SocketUtils` models the byte pointer and complete reads,
  which serve it for all of them.
- A tag must fit the 512-byte buffer (`Session.FitsExactly`) and is cut at its
  first NUL (`Session.Delivered`).
- The slot scan's guard leaves the table when every slot from the pass's start on
  is set and none is cleared in time (`Slots.GuardExactly`, `Slots.PassExactly`),
  and a zero found there is taken for a free slot (`Slots.FullTableIsLeft`); a scan
  that goes on never returns to slot 0 (`Slots.FullScanSkipsSlotZero`). A
  client spawned on descriptor 0 does not own its slot (`Slots.OwnedExactly`). An aborted
  client's slot is never used again (`Slots.SlotsAreOwned`).
- A RESET that arrives while the logger adds to its total is undone
  (`Energy.SinceResetExactly`, `Energy.ResetIsLost`).
- A meter just started reports the whole energy counter as used
  (`Rapl.FirstReadIsWholeCounter`); a power computed over a wrap mostly has no
  unsigned value (`Rapl.DefinedExactly`).
- A Watts Up record must fit the 128-byte buffers (`Mailbox.StaysInsideExactly`), and
  a measurement of -1 or less shifts those behind it (`WattsRecord.ParsedExactly`).
- A window's sum must fit 32 bits (`WindowAverage.AverageExactly`); a counter must
  not wrap between two reads (`Rapl.DeltaExactly`, `Rapl.WholeRunExactly`).
- A string buffer must not start with size 0 (`StringBuffer.NulFitsExactly`).
- The multimeter server's size test takes a full control message for a request
  (`LogControl.ModuloSwallowsExactly`).
- A file whose length is not a multiple of four arrives shortened
  (`BlockStream.FileSurvivesExactly`), and one short read spoils it or what follows
  (`BlockStream.RebuiltExactly`).
- A log file that is opened again loses what it held (`LogControl.LastOpenedCounts`).
- A clamped reading above the supply voltage has a negative power
  (`Averaging.ClampedPowerExactly`).

A comment in `src/functionapi.cpp:60` lets lines that begin with '!' be skipped; the
code skips those that begin with '#', and so does the model.

## Model

| member | source | states |
|---|---|---|
| `Session.FitsExactly` | src/socketutils.cpp:224-244 | START and END always fit the client's buffer, a tag exactly up to 494 bytes |
| `Session.OnTheWire` | src/socketutils.cpp:185-244 | START, END and a TAG byte by byte: the code, little-endian numbers, the tag with its NUL |
| `Bytes.ByteOrder` | src/socketutils.cpp:195-200 | a number's lowest byte is sent first, byte i being its digit of weight 256^i |
| `Session.AnyTagsMakeASession` | src/socketutils.cpp:224-244 | whatever tags of up to 494 bytes may be sent between a START and an END |
| `Session.Delivered` | src/socketutils.cpp:130-138 | the handler gets a message unchanged exactly when its tag has no NUL |
| `Session.ReceiveEncoded` | src/socketutils.cpp:122-141 | every framed message is received as itself, whatever bytes follow |
| `Session.SessionRoundTrip` | src/socketutils.cpp:81-141 | a client run leads to exactly its messages as handler calls, in order, and no byte beyond END is read |
| `Session.NulTagIsCut` | src/socketutils.cpp:138 | a tag with a NUL inside reaches the handler shortened |
| `SocketUtils.SocketServer.ReadData` | src/socketutils.cpp:39-51 | for every fragmentation the buffer is filled with the next bytes and nothing more is consumed; ends because the bytes still wanted shrink |
| `SocketUtils.SocketServer.HandleClientConnection` | src/socketutils.cpp:81-141 | one message is served as the bytes say, with its reply, for every fragmentation and every malformed stream |
| `SocketUtils.SocketServer.ListenForClient` | src/socketutils.cpp:62-79 | the outcome of a connection depends on the bytes only, never on how reads cut them |
| `SocketUtils.RepliesAreHandshakes` | src/socketutils.cpp:105-113 | the bytes written back are one 3 for every START and nothing else |
| `SocketUtils.SocketClient.SendTag` | src/socketutils.cpp:224-244 | copying piece by piece stays inside the buffer exactly for a tag that fits, and then sends exactly the framed tag |
| `SocketUtils.SocketClient.SendSessionStart` | src/socketutils.cpp:185-207 | sends the framed START and accepts only the handshake byte |
| `SocketUtils.RunSession` | src/socketutils.cpp:81-244 | a whole session fills the timestamp list with its messages in order, leaves no byte unread and has written one 3 for every START |
| `SocketUtils.EventHandler.TagHandler` | src/nidaqmxeventhandler.cpp:89-91 | the timestamp list grows by the tag and its time |
| `ShortReads.ReadDataAsWritten` | src/socketutils.cpp:39-51 | the loop with its pointer leaves memory as Deposit says of the reads it got, for every fragmentation and either pointer |
| `ShortReads.BytePointerDelivers` | src/socketutils.cpp:39-51 | with a byte pointer the read loop delivers the data for every fragmentation |
| `ShortReads.IntPointerDeliversExactly` | src/socketutils.cpp:39-51 | whatever was in memory, the loop as written delivers the data exactly when each cell no byte lands on held its byte already and each byte that lands equals the one whose place it takes |
| `ShortReads.UnsetDeliversExactly` | src/socketutils.cpp:125-136 | into an unset variable it delivers the data exactly when one read brings all of it |
| `ShortReads.ZeroedDeliversExactly` | src/socketutils.cpp:131-132 | into zeroed memory it delivers the data exactly when every byte behind the first read is zero |
| `ShortReads.TagArrivesExactly` | src/socketutils.cpp:131-132 | a tag's text arrives exactly when one read brings all of it, or a second one only its NUL |
| `ShortReads.StaysInsideExactly` | src/socketutils.cpp:39-51 | whatever was in memory, the int pointer writes inside the destination only exactly when one read brings all of the data; the byte pointer always does |
| `ShortReads.ReachIsWritten` | src/socketutils.cpp:39-51 | the reach of the writes is exact: nothing behind it changes and its last cell is written |
| `ShortReads.SingleReadDeliversExactly` | src/socketutils.cpp:105-120 | whatever was in memory, an unrepeated read delivers the data exactly when the bytes it does not bring were there already |
| `ShortReads.UnsetSingleReadExactly` | src/socketutils.cpp:105-120 | into an unset variable it delivers the data exactly when it brings all of it |
| `ShortReads.SplitTimeStampIsLost` | src/socketutils.cpp:133-136 | a concrete time stamp in two reads is not delivered |
| `LiteralServer.Server.HandleMessage` | src/socketutils.cpp:81-141 | with the int pointer and the single reads, one message is handled as ReceiveAsRead says of the bytes and of the reads they came in |
| `LiteralServer.MessageExactly` | src/socketutils.cpp:81-141 | a message is served as its bytes say exactly when its time stamps and size come in one read each and the first read of a tag's text brings all in front of its first NUL |
| `LiteralServer.ServesExactly` | src/socketutils.cpp:62-141 | for every stream and fragmentation the server as written has the outcome the bytes have exactly when the blocks of every message arrive so |
| `LiteralServer.WholeReadsServe` | src/socketutils.cpp:62-141 | a client run whose blocks come in one read each is served as it was sent |
| `LiteralServer.ShortStampIsNextMessage` | src/socketutils.cpp:105-109 | a short read of a START's time stamp leaves its last bytes to be taken for the next message |
| `Handshake.InvStep` | src/socketutils.cpp:75-120 | every step of either process keeps the bytes in flight equal to the messages begun but not handled |
| `Handshake.EveryRunIsSafe` | src/socketutils.cpp:185-207 | in every interleaving the client passes the handshake only after the start handler, handler calls are its messages in order, and the end handler runs at most once and last |
| `Handshake.EveryRunGoesOn` | src/socketutils.cpp:75-120 | no reachable state is stuck before both processes have finished |
| `Handshake.EveryRunEnds` | src/socketutils.cpp:75-120 | every run has at most two actions for each byte and four for each message |
| `Handshake.CanFinish` | src/socketutils.cpp:75-120 | every run can be carried on until both processes have finished |
| `Handshake.FinishedRun` | src/nidaqmxeventhandler.cpp:89-113 | a finished run leaves empty channels and the list Start, tags in order, End: tags plus two |
| `Handshake.AnyTagsMakeARun` | src/socketutils.cpp:185-244 | whatever tags of up to 494 bytes may be sent in a run |
| `Handshake.ReadsAskForOneBlock` | src/socketutils.cpp:81-141 | each read asks for what is left of one block of the message and never reaches into the next |
| `Handshake.RepliesDecide` | src/socketutils.cpp:200-206 | the client goes on exactly when it reads 3 and exits otherwise; a server that read an unknown code reads no more |
| `Netmeter.SendPower` | old/niserver/niserver/nidaqmx_server.c:44-92 | the bytes sent are the packet of the snapshot |
| `Netmeter.PacketLayout` | old/niserver/niserver/nidaqmx_server.c:44-92 | the packet byte by byte: POWER, sixteen channels, milliwatts, and the vector word by word from byte 32 |
| `Netmeter.Receive` | old/metertools/src/mapi/netmeter.c:97-119 | a reply is accepted exactly when its length matches its channel count, read errors and negative counts included |
| `Netmeter.PacketRoundTrip` | old/metertools/src/mapi/netmeter.c:97-110 | the client accepts a power packet, whatever its unset fields, and decodes the same vector |
| `SharedReadings.InvStep` | old/niserver/niserver/ContAcq-IntClk.c:153-156 | single-element writes and copies under the mutex keep the vector one publication but for the channels overwritten by the holder |
| `SharedReadings.PublishedAreConverted` | old/niserver/niserver/ContAcq-IntClk.c:135-156 | in every interleaving the publications are the initial zeros and the vectors the callback computed, in order |
| `SharedReadings.EveryPacketIsOnePublication` | old/niserver/niserver/nidaqmx_server.c:65-87 | in every interleaving each packet carries one whole vector that was computed, decodes to it, and no client is sent an older one later |
| `SharedReadings.VectorIsSent` | old/niserver/niserver/ContAcq-IntClk.c:153-156 | a vector that is computed and then asked for is sent as the newest publication |
| `Mailbox.WattsUp.ReadRecord` | old/metertools/src/mapi/watts_up.c:358-382 | the record is the shortest run of reads that shows a semicolon in front of any NUL; the writes reach as far as Reach says |
| `Mailbox.StaysInsideExactly` | old/metertools/src/mapi/watts_up.c:361-387 | a run of reads stays inside the 128-byte buffers exactly when its text has at most 127 characters and its last read starts at most at character 120 |
| `Mailbox.WattsUp.Publish` | old/metertools/src/mapi/watts_up.c:386-392 | the slot takes the record and the counter steps or goes back to 100 |
| `Mailbox.WattsUp.Take` | old/metertools/src/mapi/watts_up.c:652-659 | taking empties the counter and copies the record if there was one |
| `Mailbox.NothingIsLost` | old/metertools/src/mapi/watts_up.c:354-398 | published records are those counted out plus the counter plus 99901 per counter reset; the counter stays within 100000 |
| `Mailbox.TakenInOrder` | old/metertools/src/mapi/watts_up.c:641-671 | the consumer sees complete records, strictly newer each time |
| `Mailbox.TakeGetsTheNewest` | old/metertools/src/mapi/watts_up.c:651-671 | a successful take gets the record published last |
| `Mailbox.RecordsAreTheLine` | old/metertools/src/mapi/watts_up.c:358-398 | over every run the text the line brought is cut without loss and in order into the texts of the records published and the one being read, each record being its text up to the first NUL |
| `Mailbox.RecordIsTaken` | old/metertools/src/mapi/watts_up.c:358-398 | a text whose first semicolon comes with its last read is a record, and a consumer that asks next is given it |
| `Slots.ScanPass` | old/metertools/src/tools/mcontrol/multiserver.c:304-315 | on a table at rest the scan loop ends at the first free slot or at the end of the table |
| `Slots.LooksFindFirstFree` | old/metertools/src/tools/mcontrol/multiserver.c:304-315 | without clients the scan steps of a pass take the listener to where the loop ends; at the end of a full table to what lies behind it when that is zero, and on when it is not |
| `Slots.GuardExactly` | old/metertools/src/tools/mcontrol/multiserver.c:304-315 | for a table at rest and a pass from any slot, the code's guard leaves the table exactly when no slot from there on is free |
| `Slots.PassExactly` | old/metertools/src/tools/mcontrol/multiserver.c:304-315 | with the code's guard and clients finishing meanwhile, a pass leaves the table exactly when every slot from its start on was set when it began and none was cleared ahead of it; it chooses what lies behind exactly when that is zero |
| `Slots.PassMovesOn` | old/metertools/src/tools/mcontrol/multiserver.c:304-315 | a pass that has not ended has moved one slot per look and is not past the table, so every pass ends |
| `Slots.StrictStaysInside` | old/metertools/src/tools/mcontrol/multiserver.c:305 | with the stricter guard no run leaves the table |
| `Slots.OwnedExactly` | old/metertools/src/tools/mcontrol/multiserver.c:301-335 | in every interleaving, with either guard, live clients hold distinct set slots in range and the listener writes no held slot and none out of range, in every state, exactly when no accept stored as 0 is followed by a successful pthread_create and no look behind the table finds zero |
| `Slots.FullTableIsLeft` | old/metertools/src/tools/mcontrol/multiserver.c:304-318 | a concrete run of a hundred clients after which the listener chooses the slot behind the table |
| `Slots.SlotsAreOwned` | old/metertools/src/tools/mcontrol/multiserver.c:301-335 | over such a run every slot is set exactly for a live client or an aborted one, never both, and the aborts are as many as the lost slots, so at most the table's size |
| `Slots.LostForGood` | old/metertools/src/tools/mcontrol/multiserver.c:549-551 | a slot lost to an aborted client is lost in every continuation of the run |
| `Slots.DescriptorZeroSharesASlot` | old/metertools/src/tools/mcontrol/multiserver.c:313-329 | a client accepted on descriptor 0 ends up sharing its slot |
| `Slots.FullScanSkipsSlotZero` | old/metertools/src/tools/mcontrol/multiserver.c:304-315 | a scan past slot 0 never chooses it, with either guard, however often the table is full and whatever the clients do |
| `Slots.FullScanGoesOnAtOne` | old/metertools/src/tools/mcontrol/multiserver.c:304-315 | after a full table the scan goes on at slot 1 |
| `Slots.NextPassFindsFirstFree` | old/metertools/src/tools/mcontrol/multiserver.c:300-340 | a poll that timed out, a failed accept and a pthread_create are followed by a pass from slot 0, which finds the first of all free slots |
| `LogControl.ModuloSwallowsExactly` | old/metertools/src/tools/mcontrol/multiserver.c:407-435 | the size test changes what a message is taken for exactly for a message that fills the buffer; sizes 32 and 64 are requests, up to 2 unexpected |
| `LogControl.LogServer.ClientRequest` | old/metertools/src/tools/mcontrol/mserver.c:327-385 | the switch over control messages does what the specification step says |
| `LogControl.LogServer.LogSample` | old/metertools/src/tools/mcontrol/mserver.c:577-584 | a sample goes to the open file while logging |
| `LogControl.LoggingMeansOpen` | old/metertools/src/tools/mcontrol/mserver.c:327-385 | over every run logging holds exactly when a file is open, and only the newest file can be open |
| `LogControl.LogFilesHoldWhatArrived` | old/metertools/src/tools/mcontrol/multiserver.c:599-659 | over every run each stream got BEGIN_LOG and exactly the markers and samples that arrived while it was open, as told by a definition without state, and each file holds what the streams opened on it leave |
| `LogControl.LastOpenedCounts` | old/metertools/src/tools/mcontrol/multiserver.c:606 | a file opened more than once holds what the stream opened on it last was given |
| `LogControl.OnlyOpenedFiles` | old/metertools/src/tools/mcontrol/multiserver.c:606 | every file that exists was opened, and has a last stream |
| `LogControl.OpeningCode` | old/metertools/src/tools/mcontrol/multiserver.c:599-616 | code 20 opens a log on the file fopen gives and writes BEGIN_LOG, or leaves everything closed |
| `LogControl.CodesExactly` | old/metertools/src/tools/mcontrol/multiserver.c:616-659 | with a log open, codes 21 and 23 write their markers, 22 closes it, other codes write nothing |
| `WindowAverage.Statistic.Add` | old/metertools/src/tools/mcontrol/multiserver.c:902-907 | one reading is added to the 32-bit sums of its channels and no others |
| `WindowAverage.Statistic.Reset` | old/metertools/src/tools/mcontrol/multiserver.c:886-900 | averages are taken out and the sums cleared; an empty window changes nothing |
| `WindowAverage.EverySampleInOneWindow` | old/metertools/src/tools/mcontrol/multiserver.c:1005-1021 | over every run each sample falls in exactly one window, in order, and the outputs are the windows' averages |
| `WindowAverage.AverageExactly` | old/metertools/src/tools/mcontrol/multiserver.c:890-891 | average times count is at most the sum and within one count of it exactly when the sum fits the counter |
| `WindowAverage.AverageBetween` | old/metertools/src/tools/mcontrol/multiserver.c:890-891 | such an average lies between the window's least and greatest reading |
| `WindowAverage.OneReadingIsItsAverage` | old/metertools/src/tools/mcontrol/multiserver.c:886-907 | the averages of a window of one reading are that reading, channel by channel, and zero beyond it |
| `Matrix.IndexPlace` | src/clientexample.cpp:41-53 | a cell's flat index lies in its own row, inside the array, and in no other row |
| `Matrix.Multiply` | src/clientexample.cpp:41-53 | for every n each cell of c ends as its old value plus the sum of products, and a and b are unchanged |
| `Averaging.AverageChannels` | src/nidaqmxeventhandler.cpp:157-166 | every channel ends as the sum of its own slice of the buffer over the number of samples, with every index in the buffer |
| `Averaging.NidaqDiffVoltToPower` | src/nidaqmxeventhandler.cpp:231-237 | every average is converted with its own channel's voltage |
| `Averaging.DiffVoltToMilliPower` | old/niserver/niserver/ContAcq-IntClk.c:142-143 | each clamped average has unsigned milliwatts exactly when its power is above -1 and below 2^32, and they are that power cut off by less than one |
| `Averaging.ClampedPowerExactly` | old/niserver/niserver/ContAcq-IntClk.c:193-195 | a clamped reading gives a power that is not negative exactly when it does not exceed the voltage |
| `Averaging.PowerExactly` | old/niserver/niserver/ContAcq-IntClk.c:142-143 | power times three milliohms is the drop times what is left of the voltage; a clamped reading has a thousand times that in milliwatts |
| `Averaging.SlicesPartition` | src/nidaqmxeventhandler.cpp:159-165 | the channel slices, joined, are exactly the filled region of the buffer |
| `Averaging.MeansCountEverything` | old/niserver/niserver/ContAcq-IntClk.c:189-196 | sample count times the sum of the averages is the sum of all samples |
| `Averaging.MeanBetween` | src/nidaqmxeventhandler.cpp:159-165 | an average lies between the least and greatest sample of its channel |
| `Averaging.AveragingAddsTheVariance` | src/nidaqmxeventhandler.cpp:157-174 | power of the average is the mean of the sample powers plus variance over resistance, so never below that mean |
| `Energy.Logger.Integrate` | old/metertools/src/tools/mlogger.c:295-307 | one reading is charged for the time since the reading integrated last, as load and store say, with or without a RESET between them |
| `Energy.Logger.Monitor` | old/metertools/src/tools/mlogger.c:411-450 | the loop, with resets between and inside turns, does the loads, stores and resets of its turns and stops after exactly the counted positive readings |
| `Energy.SpansTile` | old/metertools/src/tools/mlogger.c:408-443 | over any run, resets anywhere, the intervals run without gap or overlap from the start to the reading integrated last, one for each store |
| `Energy.TimeIsConserved` | old/metertools/src/tools/mlogger.c:408-443 | the intervals charged add up to the time that passed |
| `Energy.EnergyExactly` | old/metertools/src/tools/mlogger.c:303-305 | a million times the energy of a span is its power times its microseconds |
| `Energy.ConstantPower` | old/metertools/src/tools/mlogger.c:408-443 | over intervals that tile the time with one power the exact energy is that power times the time |
| `Energy.OneReading` | old/metertools/src/tools/mlogger.c:295-307 | one reading adds watts, or value times volts, times the seconds since the reading integrated last, cut to a whole number |
| `Energy.StoresAreReadings` | old/metertools/src/tools/mlogger.c:411-450 | the monitor stores as many sums as it sees positive readings |
| `Energy.TruncationIsBounded` | old/metertools/src/tools/mlogger.c:306 | over any run whose sums have an unsigned value, resets anywhere, the total is off by less than one per span counted in it, whatever the signs |
| `Energy.TruncationOnlyLoses` | old/metertools/src/tools/mlogger.c:306 | with a clock that does not run back the total is at most the exact energy counted in it and short of it by less than one per span |
| `Energy.SumIsDefined` | old/metertools/src/tools/mlogger.c:306 | with such a clock every sum has an unsigned value while the exact energy is below 2^32 |
| `Energy.SinceResetExactly` | old/metertools/src/tools/mlogger.c:239-241 | with such a clock the total is that of the spans since the last RESET, in every state, exactly when no sum is stored over a RESET that came after it had loaded a total above zero |
| `Energy.ResetIsLost` | old/metertools/src/tools/mlogger.c:306 | a concrete RESET between load and store leaves the total at 7 where 2 have been used since |
| `Rapl.EnergyUnit` | old/metertools/src/tools/mcontrol/sensor_server.c:684-688 | the energy unit is 1 / 2^ESU, as in section 14.9.1 of volume 3B of the Intel SDM |
| `Rapl.UnitOfRegister` | old/metertools/src/tools/mcontrol/sensor_server.c:687 | the unit is halved once for every one counted by the five bits from bit 8 on, whatever the other bits are |
| `Rapl.RaplMeter.Read` | old/metertools/src/tools/mcontrol/sensor_server.c:694-750 | each domain gets its own difference, and its milliwatts change only when time has passed, to the unsigned value C defines; without one the read has no result |
| `Rapl.RaplMeter.Monitor` | old/metertools/src/tools/mcontrol/sensor_server.c:810-813 | a run of reads takes the meter to the state Exec gives, or stops at the first read whose powers have no unsigned value |
| `Rapl.DefinedExactly` | old/metertools/src/tools/mcontrol/sensor_server.c:738-746 | every power of a run has an unsigned value exactly when each read's energy since the read before lies above -1 and below 2^32 milliwatts for its time |
| `Rapl.DeltasTelescope` | old/metertools/src/tools/mcontrol/sensor_server.c:706-734 | over any run the energies the meter reports add up to the last reading minus what it remembered |
| `Rapl.WholeRunExactly` | old/metertools/src/tools/mcontrol/sensor_server.c:706-734 | that sum is the true energy exactly when the counter is in the same wrap at the last read as at the read remembered |
| `Rapl.FirstReadIsWholeCounter` | old/metertools/src/tools/mcontrol/sensor_server.c:696-709 | a started meter's first read reports the whole counter, over all the time since the epoch, and every run's sum is too high by it |
| `Rapl.ReportedPowerBounds` | old/metertools/src/tools/mcontrol/sensor_server.c:738-750 | over any run the milliwatts the meter reports times time differ from a thousand times the energy it reports for those reads by less than the time, and do not exceed it when the counter never falls; reads without elapsed time are accounted for |
| `Rapl.ExceedsExactly` | old/metertools/src/tools/mcontrol/sensor_server.c:738-746 | no reported power exceeds its read's energy exactly when the counter never falls |
| `Rapl.PowerMatchesEnergy` | old/metertools/src/tools/mcontrol/sensor_server.c:703-750 | with an advancing clock the same bounds hold for the energy and the time since the read remembered |
| `Rapl.DeltaExactly` | old/metertools/src/tools/mcontrol/sensor_server.c:706-709 | a delta is the true energy exactly when the 32-bit counter did not wrap |
| `StringBuffer.Sb.CatStr` | old/metertools/src/support/stringbuffer.c:106-133 | the text is appended with a NUL behind it inside the array; a missing string or failing realloc changes nothing |
| `StringBuffer.Sb.CatAll` | old/metertools/src/support/stringbuffer.c:106-133 | after any appends the buffer holds the concatenation and a NUL |
| `StringBuffer.CostIsLinear` | old/metertools/src/support/stringbuffer.c:118-127 | used stays below size, capacity within three times the text, and all reallocations move no more than the capacity gained and no less than that minus the text |
| `StringBuffer.NulFitsExactly` | old/metertools/src/support/stringbuffer.c:50-56 | an append leaves room for the NUL exactly when the initial size was not zero |
| `BlockStream.StreamFromFile` | examples/chandlerSocketsCode/fileLib.c:7-43 | the loop sends the encoding in length/400 + 1 blocks |
| `BlockStream.StreamToFile` | examples/chandlerSocketsCode/fileLib.c:45-86 | the loop's outcome is DecodeAsRead's, for every byte stream, whatever each of its reads brings and whatever malloc left |
| `BlockStream.CompleteIsDecode` | examples/chandlerSocketsCode/fileLib.c:45-86 | with complete reads that outcome depends on the bytes only |
| `BlockStream.RebuiltExactly` | examples/chandlerSocketsCode/fileLib.c:45-86 | the receiver rebuilds the file and stops exactly behind the bytes sent exactly when every read brings all that was asked for |
| `BlockStream.LongReadsAreComplete` | examples/chandlerSocketsCode/fileLib.c:45-86 | reads that could bring more than is asked for bring all of it, for every file |
| `BlockStream.StreamRoundTrip` | examples/chandlerSocketsCode/fileLib.c:21-81 | from complete reads the receiver rebuilds the integers, stops exactly behind them whatever follows, and runs as many iterations as the sender |
| `BlockStream.FileSurvivesExactly` | examples/chandlerSocketsCode/fileLib.c:21-31 | a file arrives unchanged exactly when it is made of whole integers |
| `WattsRecord.WattsUpParse` | old/metertools/src/mapi/watts_up.c:856-902 | for every input string no measurement beyond the four allocated is written, and the token loop fills them as specified |
| `WattsRecord.TokensJoined` | old/metertools/src/mapi/watts_up.c:871-898 | splitting comma-joined fields gives the fields back |
| `WattsRecord.AcceptedExactly` | old/metertools/src/mapi/watts_up.c:866-869 | a reply is parsed exactly when its first '#' begins "#d," |
| `WattsRecord.AtoiExactly` | old/metertools/src/mapi/watts_up.c:876 | a number is read behind blanks and at most one sign, up to the first character that is no digit |
| `WattsRecord.ParsedExactly` | old/metertools/src/mapi/watts_up.c:849-902 | the four measurements of any record stand in their own places exactly when watts, volts and amps are above -1 and the power factor is too or was there before |
| `WattsRecord.RecordRoundTrip` | old/metertools/src/mapi/watts_up.c:849-902 | a printed record is parsed into watts/10, volts/10, amps/1000 and pf/100 in that order, whatever the other fields |
| `Config.FindPair` | src/functionapi.cpp:82-106 | a pair is the line cut at its first delimiter, with both parts non-empty |
| `Config.CreateConfigurationMap` | src/functionapi.cpp:37-80 | the getline loop reads the lines of the file one by one into the map |
| `Config.SucceedsExactly` | src/functionapi.cpp:56-79 | reading succeeds exactly when every line that is neither empty nor begins with '#' assigns to a key, and no two lines assign to the same |
| `Config.MapExactly` | src/functionapi.cpp:56-79 | the map read holds exactly what the lines "key=value" assign |
| `Config.CommentsAreSkipped` | src/functionapi.cpp:61 | an empty or comment line can be left out wherever it stands |
| `Config.LinesExactly` | src/functionapi.cpp:56-60 | the lines, joined by newlines, are the text |
| `Config.OrderDoesNotMatter` | src/functionapi.cpp:56-79 | permuting the lines changes neither success nor the map |
| `Config.ConfigurationRoundTrip` | src/functionapi.cpp:56-106 | printing a well-formed map in any key order and reading it gives the map back, '=' allowed inside values |

## Left out

- Sockets, serial lines, files, DAQmx and MSR access: they appear as byte streams, partial reads, success flags and parameters; the clock is a parameter.
- SocketUtils.SocketServer.ReadData: a read of a closed connection returns 0 and the code's loop then never ends; the model reports an unfilled buffer instead.
- SocketUtils.SocketServer.HandleClientConnection: the time stamps of START and END are read completely and blocks through a byte pointer; LiteralServer has the reads as written.
- LiteralServer.ServesExactly: what the writes beyond a destination do to other memory; ShortReads.StaysInsideExactly says when there are any.
- SocketUtils.SocketServer.ListenForClient: the same premises, complete reads and a byte pointer; listen and accept are not modelled.
- SocketUtils.SocketClient.SendTag: what happens after the copy has left the buffer.
- SocketUtils.RunSession: all bytes are sent before the server reads them and the reply is the handshake; the interleaving of the two sides is in Handshake.
- SocketUtils.EventHandler.TagHandler: the text written to the log file, the meter configuration and the acquisition task behind the handlers are not modelled, only the timestamp list and whether a session is measuring.
- BlockStream.StreamToFile: read errors, which end the program; after a peer has closed, reads bring nothing and the loop need not end.
- Mailbox.WattsUp.ReadRecord: what happens after a record has left the buffers.
- Mailbox.WattsUp.Take: a reader that finds nothing tries once more and then returns an uninitialised code.
- Averaging.AverageChannels: a callback that read no samples; the newer code then converts uninitialised averages.
- Averaging.DiffVoltToMilliPower: a power without an unsigned value has no result; its conversion is undefined in C.
- Rapl.RaplMeter.Read: a power without an unsigned value ends the run; its conversion is undefined in C.
- Energy.Logger.Monitor: meter and clock errors, which end the loop, and the log output. A sum without an unsigned value ends the run; its conversion is undefined in C.
- WindowAverage.Statistic.Reset: it releases a mutex it does not hold; each call is atomic here.
- LogControl.LogServer.ClientRequest: CHG_WORKING_DIR only shows in the file an fopen gives, which is a parameter; the mserver has no lock around the switch, each message is atomic here.
- Slots.OwnedExactly: a run ends with the first state that has a slot out of range; what a client accepted behind the table overwrites is not modelled.
- WattsRecord.WattsUpParse: numbers too large for an int, which atoi leaves undefined.
- Floating-point rounding: all measurements are real numbers.
- The other meters, the unit tables, the command-line tools, daemon and option handling: fixed-size packets, finite tables and plumbing.
- sb_clear, sb_reset, sb_copy and sb_create with a source buffer: their memory handling contradicts their comments.
- The parallel sort of the example server: sort.c is not part of this model.
