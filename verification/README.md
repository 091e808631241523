# Model of the GPIBUSB adapter firmware

GPIBUSB is a USB adapter that makes an instrument on the IEEE 488 bus (GPIB) look like a USBTMC device. This project models the parts of its firmware where data can get lost, duplicated or mixed up, and proves that they do not, or exactly when they do.

Each C function that works on global variables is a method over the fields of a class; its contract is stated in terms of what can be observed outside. What the program cannot control — when the host sends a control request, when a timeout callback is polled, what the lines of the bus show — is read from a script or a function that the theorems quantify over, so a theorem about all scripts is a theorem about all runs.

| file | what it models |
|---|---|
| `Gpib.dfy` | the bus as an instrument sees it: listener, talker and serial-poll functions of one device, and the command sequences that address it |
| `SourceHandshake.dfy` | the sending half of the three-wire handshake, register write by register write, with any number of acceptors |
| `AcceptorHandshake.dfy` | the receiving half, with a talker and other listeners |
| `Handshakes.dfy` | the two step machines give what the bridge takes one handshake to be |
| `Trace.dfy` | what host and bus can observe of a run, and what the adapter promises about such a history |
| `Bridge.dfy` | `TMC_Task`: chunked bulk-OUT forwarding with interleaved serial polls, bulk-IN reads, internal commands and their answers, aborts, clear, status bytes, every control request |
| `InternalCommands.dfy` | what the handlers of the internal commands set and answer |
| `Transfers.dfy` | bulk-OUT transfers as a host encodes them, and the end-to-end theorem about writing |
| `UsbPackets.dfy` | bulk-IN packetising: the chunked stream writer against the byte-wise one |
| `Responses.dfy` | the responses of a whole run as the host decodes them, end to end |
| `Dialogue.dfy` | writing and reading in one session |
| `Deviations.dfy` | runs in which the firmware does not do what it should |
| `Controller.dfy` | controller functions under the counted timeout: termination on any bus, and the address search |
| `CommandTable.dfy`, `CommandParser.dfy`, `AddressNumber.dfy` | the packed command tree, its interpreter, and the number decoder of `!addr` |
| `SerialString.dfy` | the identification answer made into a USB serial string |
| `Fat12.dfy`, `FlashMemory.dfy`, `VirtualDisk.dfy`, `ScsiDisk.dfy` | the firmware-update disk: FAT12 table, flash programming, file blocks, READ (10) and WRITE (10) |

## Main results

* **Everything written arrives** (`Transfers.Session`). However control requests, polls and timeouts fall between the bytes, in a run without aborts and internal commands the instrument has received the payloads of all transfers in order, as listener, with EOI on exactly the last byte of each non-empty transfer whose end-of-message bit is set, up to what the packets not yet processed still owe it; and all of it after as many passes that find a packet as there are packets. Every run of a script without INITIATE and INDICATOR_PULSE requests is such a run. An abort ends the promise only up to the flush that serves it: what the packets left by the last flush owe is conserved from then on, and if they are again whole transfers, all of them arrive.
* **Everything read arrives** (`Responses.ReadSession`, `Trace.MessageCutAtFirstEnd`, `Trace.AnswerArrives`). A response is the next part of the buffered answer of an internal command as long as there is one, and is read from the instrument otherwise. As long as since the last flush nothing disturbs a message being read — no abort, poll, write or trigger in the middle of it, and no internal command that makes the adapter address another device — a host that decodes the packets the adapter really sent gets every response under the tag of its request: those of the instrument are what it says from where the flush left it, none lost or repeated, each cut exactly at the first end of its message or at the size asked for, with the end-of-message flag if and only if it ends the message; the others are each answer from first to last byte. Each read request found among the packets is answered once and in order. A read waits for ever if and only if it wants bytes and the rest of a half-read answer is gone (`Bridge.Adapter.HandleMsgIn`).
* **A whole dialogue** (`Dialogue.Converse`). For any writes, triggers and reads, each read asking for a whole message, and any control requests but INITIATE, INDICATOR_PULSE and READ_STATUS_BYTE at any yield point, with service requests between the transfers: the adapter never waits for ever; after as many passes that find a packet as there are packets the instrument has received all that was written, and the host has got one response for each read request, in order and under its tag: response number k is what the instrument says from the end of response k - 1 up to and including the first end, which determines it (`Dialogue.MessageIsUnique`).
* **Split transactions** (`Trace.SplitsSound` in `Bridge.Adapter.Run`, with `Trace.SuccessHasCause`). Every INITIATE and CHECK is answered as the history demands, aborts by comparison with the tag of the last header. A CHECK answers SUCCESS only for the split that is open and after a flush; between the INITIATE and that CHECK a clear has called `gpib_sdc` exactly once, or not at all if it arrived during a bulk-IN read.
* **Status bytes** (`Bridge.Adapter.Run`, `Trace.PolledBitsReachTheReply`, `Trace.ReplyTellsOnlyNewBits`, `Trace.RequestIsAnswered`, `Trace.ReplyIsNoticed`). No status bit seen by an SRQ poll is lost or reported twice. Of a host that waits for the answer to one request before it makes the next, each deferred request is answered once and under its own tag, unless the transfer state is reset first, which takes an abort or a clear; and as long as no reset is asked for that happens before its transfer ends. On the interrupt endpoint goes the byte of each SRQ poll, and each status reply is repeated there once, with its tag and value, if and only if no other reply comes before its notice goes out at the end of the pass.
* **The instrument's side** (`Trace.AnswersOf` and `Trace.OrdersOf` in `Bridge.Adapter.Run`). Over a whole run the status bytes the instrument gave are those of the polls, in order, and the device clears, triggers, go-to-local and lockout commands it obeyed are those of the history, once each and in order, except that one that timed out may not have reached it.
* **Internal commands** (`InternalCommands.CommandsSound` in `Bridge.Adapter.Run`). Every internal command of a run has the answer and the effect that the command it spells should have, given all before it.
* **Handshakes** (`SourceHandshake.HandshakeIsSafe`, `AcceptorHandshake.ReadIsSafe`), for any number of devices and any interleaving, with a bound on the steps of runs without timeouts; `Handshakes.OneHandshake` ties them to the bridge.
* **Commands** (`CommandParser.Parser.Add`, `CommandParser.TableIsTheList`): the interpreter of the packed table selects a command exactly when the letters since the last return to the root spell it.
* **The disk** (`ScsiDisk.Serve`): any command sequence behaves as on a plain array of sectors.

## Where the code differs from what it should do

The model follows the code. These deviations are part of it; the lemma or contract that shows each one is named.

* INITIATE_ABORT raises its reset flag even when the request is refused, so a refused abort still flushes the endpoints and resets the transfer state (`Deviations.RefusedAbort`), and a refused INITIATE_CLEAR answers two bytes (`Trace.AnswerSound`).
* A clear that arrives during a bulk-IN read never sends its device clear, although the host is told that it has succeeded (a run: `Deviations.LostClear`; always: `Trace.ClearInReadIsLost`; where it is dropped: `Bridge.Adapter.FinishRead`).
* The byte that follows a status poll in the middle of a write is put on the bus even if the instrument could not be addressed again. It is lost if and only if there was such a poll and a reset is owed when the addressing is over (`Bridge.Adapter.SendByte`); in every other case a handshake that ends means that the listener has the byte. With the abort at one particular moment, the first handshake of the poll, no timeout follows and all the rest of the packet is lost (`Deviations.LostBytes`).
* A reset of the transfer state drops a deferred READ_STATUS_BYTE, which is then never answered (`Bridge.Adapter.ResetStates`; exactly when: `Trace.RequestIsAnswered`).
* It leaves the note that a write is busy as it is. After an abort of a transfer that has more packets to come, a READ_STATUS_BYTE is deferred although nothing is being written (`Deviations.AbortedWrite`, `Deviations.UnansweredStatus`).
* Of two status replies in one pass only the second is repeated on the interrupt endpoint (exactly when a notice is overwritten: `Trace.ReplyIsNoticed`).
* An internal command that has no answer, taken when the answer to a query has been read only in part, leaves the adapter in the belief that a message is being read. If no other answer comes first, the next read of at least one byte does not address the instrument and waits for ever (`Deviations.HangingRead`; how it comes about: `Trace.OrphanedBy`; exactly when: `Bridge.Adapter.HandleMsgIn`).
* A status poll between two reads of one message takes the talker's role away, and the next read of at least one byte waits for ever, unless an abort comes (`Deviations.PolledMessage`).
* A secondary address byte is put out whenever there is one, even when the primary one timed out (`Controller.Bus.SendAddress`).
* The address decoder keeps its numbers in bytes and takes 255 for "no digit yet": a number is read as the digits since the last place where they wrote 255 modulo 256, modulo 256, and one that reads as 255 counts as absent. So 257 selects address 1, 2555 selects 5, "255 5" and "5 255" select 5, and "5 352" selects 5 with secondary address 0 (`AddressNumber.LargeNumbersWrap`; exactly when an address is read as it is written: `AddressNumber.OneNumber`, `AddressNumber.TwoNumbersExactly`).
* The decoder's third array cell is its own index. A message with two numbers is read inside the array exactly if at most one character follows the second one (`AddressNumber.MessageStaysInside`); if one of them counts as absent, nothing but a further number leads outside (`AddressNumber.AbsentNumberStaysInside`).
* Doubled underscores are suppressed in the serial string, because some hosts refuse them, but only between adjacent special characters: with an unprintable one in between both are stored (`SerialString.DoubledAfterAll`; exactly when: `SerialString.DoublesComeFromGaps`).
* Writing an even FAT12 entry overwrites the low four bits of the next one (`Fat12.DecodeUpdated`), and entries beyond 170 are not written at all, their offset wrapping to the first ones (`Fat12.FarEntriesWrap`). Both files can be followed exactly unless EEPROM.BIN lies in the even cluster right before FLASH.BIN (`Fat12.BothFilesFollow`).
* READ (10) and WRITE (10) keep 16 bits of the block address, so a write to block 0x10004 replaces the first sector of FLASH.BIN (`ScsiDisk.FarWriteHitsTheFile`; exactly when: `ScsiDisk.RejectsOutside`).

## Model

| member | source | states |
|---|---|---|
| Gpib.ListenSequenceAddresses | SW/TestAndMeasurement/gpib.c:377-392 | from any state of the device, the bytes of gpib_make_listener leave it listener and not talker |
| Gpib.TalkSequenceAddresses | SW/TestAndMeasurement/gpib.c:355-374 | from any state, the bytes of gpib_make_talker leave it talker and not listener |
| Gpib.AddressedCommand | SW/TestAndMeasurement/gpib.c:188-259 | listen address, SDC, GET or GTL, and UNL: the designated device carries the command out exactly once and is listener no longer |
| Gpib.SerialPollOpens | SW/TestAndMeasurement/gpib.c:149-164 | the opening bytes of a serial poll make the device talker of its status byte |
| Gpib.SerialPollCloses | SW/TestAndMeasurement/gpib.c:166-170 | the closing bytes end serial poll mode and untalk the device |
| Gpib.CommandsCarryNoData | SW/TestAndMeasurement/gpib.c:91-147 | no command byte sequence puts anything into the data a device received or changes its addresses |
| SourceHandshake.HandshakeIsSafe | SW/TestAndMeasurement/gpib_priv.h:51-126 | any number of acceptors, any interleaving: while DAV is asserted the lines carry the byte; every acceptor took the bytes of the returned calls once each and in order, and at most the one in flight besides; a timeout releases DAV, data and EOI |
| SourceHandshake.NrfdAloneSuffices | SW/TestAndMeasurement/gpib_priv.h:80-95 | when the wait on NRFD alone is over, every acceptor is ready and holds NDAC, so NDAC cannot be high before all have taken the byte |
| SourceHandshake.OneCall | SW/TestAndMeasurement/gpib_priv.h:51-114 | one call: every acceptor heard the byte exactly once after it returns, at most once after it times out |
| SourceHandshake.RunKeepsInv | SW/TestAndMeasurement/gpib_priv.h:51-126 | every run keeps it |
| SourceHandshake.InvStep | SW/TestAndMeasurement/gpib_priv.h:51-126 | every step of the adapter or of an acceptor keeps the inductive invariant |
| SourceHandshake.RankDecreases | SW/TestAndMeasurement/gpib_priv.h:86-101 | without a timeout every effective step lowers a bounded rank |
| SourceHandshake.NeverStuck | SW/TestAndMeasurement/gpib_priv.h:86-101 | until the message is sent some step other than a timeout is possible |
| SourceHandshake.RunsAreShort | SW/TestAndMeasurement/gpib_priv.h:86-101 | so a run without timeouts is over after a bounded number of steps |
| AcceptorHandshake.ReadIsSafe | SW/TestAndMeasurement/gpib_priv.h:128-188 | any talker, any other listeners, any interleaving: the returned bytes are a prefix of the talker's with their EOI flags, the talker is at most one byte ahead, and NRFD and NDAC are never both released until a timeout |
| AcceptorHandshake.RunKeepsInv | SW/TestAndMeasurement/gpib_priv.h:128-188 | every run keeps the inductive invariant |
| AcceptorHandshake.SamplesStableData | SW/TestAndMeasurement/gpib_priv.h:158-162 | the lines are read only while the talker holds the current byte on them |
| AcceptorHandshake.NeverStuck | SW/TestAndMeasurement/gpib_priv.h:149-171 | no deadlock while bytes are left and the other listeners let go |
| AcceptorHandshake.RankDecreases | SW/TestAndMeasurement/gpib_priv.h:149-171 | without a timeout every effective step of adapter or talker lowers a bounded rank, however the other listeners pull the lines |
| AcceptorHandshake.RunsAreShort | SW/TestAndMeasurement/gpib_priv.h:149-171 | so a read without timeouts takes a bounded number of steps |
| Handshakes.OneHandshake | SW/TestAndMeasurement/gpib_priv.h:51-126 | at the end of a call the instrument behind any acceptor is as the bridge says it is after one handshake, timed out or not |
| Handshakes.ReadCalls | SW/TestAndMeasurement/gpib_priv.h:128-188 | read call number k returns the talker's byte number k |
| Trace.SuccessHasCause | SW/TestAndMeasurement/TestAndMeasurement.c:723-891 | a CHECK answered SUCCESS has in its past an accepted INITIATE of its kind and after it a flush, no accepted INITIATE or CHECK since that INITIATE, and since then one gpib_sdc call for a clear, or none if it arrived during a read |
| Trace.ClearInReadIsLost | SW/TestAndMeasurement/TestAndMeasurement.c:1340-1343 | a clear that arrived during a read and is reported as done has called for no device clear |
| Trace.NoAbortsOweNothing | SW/TestAndMeasurement/TestAndMeasurement.c:1396-1421 | no reset is owed if and only if none was asked for since the last flush, and then a split that is open has been flushed |
| Trace.RequestIsAnswered | SW/TestAndMeasurement/TestAndMeasurement.c:710-722 | a deferred status request is the one outstanding until it is answered under its own tag or a reset drops it, whichever comes first |
| Trace.ReplyIsNoticed | SW/TestAndMeasurement/TestAndMeasurement.c:688-691 | a status reply is the one still to be repeated until it is repeated with its tag and value or another reply comes, whichever is first |
| Trace.PolledBitsReachTheReply | SW/TestAndMeasurement/TestAndMeasurement.c:679-691 | every non-RQS bit an SRQ poll saw is in the next status reply |
| Trace.ReplyTellsOnlyNewBits | SW/TestAndMeasurement/TestAndMeasurement.c:679-691 | a bit still to be reported was seen by an SRQ poll after the previous reply: none is reported twice |
| Trace.DeliveredIsSpoken | SW/TestAndMeasurement/TestAndMeasurement.c:1073-1111 | the payloads of the instrument's responses since the last flush concatenate to what the talker said from there on |
| Trace.MessageCutAtFirstEnd | SW/TestAndMeasurement/TestAndMeasurement.c:1090-1108 | a message ends at its first byte with EOI or the enabled terminator, however the requests cut it |
| Trace.AnswerArrives | SW/TestAndMeasurement/TestAndMeasurement.c:1296-1314 | however the host cuts it, the answer of an internal command is given from its first byte on, nothing lost or repeated, the end-of-message flag with its last byte |
| Trace.OrphanedBy | SW/TestAndMeasurement/TestAndMeasurement.c:981-1006 | a read is orphaned only by an internal command without an answer, taken when the answer before it had been read in part, with no answer since |
| Trace.NothingObeyed | SW/TestAndMeasurement/TestAndMeasurement.c:1172-1424 | an instrument that was given no order has obeyed none |
| Bridge.Adapter.SendCommands | SW/TestAndMeasurement/gpib.c:91-259 | commands under the counted timeout: all heard in order, or a timeout, after which only a secondary address still follows, that leaves the device unaddressed and out of serial poll mode |
| Bridge.Adapter.ReadStatusByte | SW/TestAndMeasurement/gpib.c:149-176 | the result is what the instrument answered in this poll, or 0 without an answer; afterwards it is neither talker nor in serial poll mode |
| Bridge.Adapter.SelectedDeviceClear | SW/TestAndMeasurement/gpib.c:239-259 | unless it times out, the instrument carries out exactly one device clear |
| Bridge.Adapter.AnswerStatusRequest | SW/TestAndMeasurement/TestAndMeasurement.c:669-698 | the reply carries the pending tag, the poll's byte and every unreported SRQ bit, and is queued for the interrupt endpoint |
| Bridge.Adapter.StatusRequest | SW/TestAndMeasurement/TestAndMeasurement.c:710-722 | answered on the spot, or recorded and deferred while a write is busy |
| Bridge.Adapter.InitiateAbort | SW/TestAndMeasurement/TestAndMeasurement.c:723-812 | the answer is the one the history demands, by comparison with the tag of the last header; the reset is owed from now on, refused or not |
| Bridge.Adapter.InitiateClear | SW/TestAndMeasurement/TestAndMeasurement.c:837-866 | the same for a clear, which also asks for one device clear |
| Bridge.Adapter.CheckRequest | SW/TestAndMeasurement/TestAndMeasurement.c:755-891 | SUCCESS only for the open split with nothing owed, PENDING while something is, refused otherwise |
| Bridge.Adapter.ControlRequest | SW/TestAndMeasurement/TestAndMeasurement.c:700-953 | at any yield point every request is answered soundly, leaves the instrument alone while a write is busy, lowers no reset flag, and sets what waits to be served |
| Bridge.Adapter.Handshake | SW/TestAndMeasurement/gpib_priv.h:51-126 | one byte under the yielding callback: carried exactly once to the instrument as it then is, or timed out, which takes an abort; a status poll in between changes no received data |
| Bridge.Adapter.MakeListener | SW/TestAndMeasurement/gpib.c:377-392 | it times out exactly if a reset is owed, which takes an abort; otherwise the instrument listens, whatever requests arrive meanwhile |
| Bridge.Adapter.MakeTalker | SW/TestAndMeasurement/gpib.c:355-374 | the same for talking |
| Bridge.Adapter.ServeStatusRequest | SW/TestAndMeasurement/TestAndMeasurement.c:1041-1046 | a poll between two bytes leaves the instrument listener again if and only if no reset is owed by then, and its data untouched |
| Bridge.Adapter.SendByte | SW/TestAndMeasurement/TestAndMeasurement.c:1039-1054 | the byte is put on the bus in any case; it is lost if and only if there was a status poll and a reset is owed when the instrument is to be addressed again; otherwise a handshake that ends means that the listener has it; an abort in the first handshake of the poll always loses it |
| Bridge.Adapter.SendBytes | SW/TestAndMeasurement/TestAndMeasurement.c:1039-1054 | the instrument receives exactly the bytes of the packet, EOI on the last one if asked for; but if a status request comes with the first byte and an abort with the poll for it, all bytes are put on the bus and the first alone is received |
| Bridge.Adapter.ProcessSentMessage | SW/TestAndMeasurement/TestAndMeasurement.c:1008-1071 | the packet is received exactly; between packets of a transfer the instrument stays listener and the write busy; the first packet of a transfer after an indicator pulse that begins with an exclamation mark, and no other, is run as an internal command, with its setting, answer and address, and nothing goes out on the bus |
| Bridge.Adapter.TakeChunk | SW/TestAndMeasurement/TestAndMeasurement.c:1008-1062 | the same without the status request served at the end |
| Bridge.Adapter.RunInternal | SW/TestAndMeasurement/TestAndMeasurement.c:981-1006 | what the command parser makes of the characters is done: setting, answer in place of any other, new address |
| Bridge.Adapter.FillBuffer | SW/TestAndMeasurement/TestAndMeasurement.c:1090-1095 | the buffer holds what the talker says next, cut at the first end or the limit |
| Bridge.Adapter.GetNextMessage | SW/TestAndMeasurement/TestAndMeasurement.c:1073-1111 | the same for a whole call; the talker is addressed only when a message begins; in an undisturbed run the call waits for ever if and only if bytes are wanted, a message is taken to have begun and the instrument has none begun |
| Bridge.Adapter.PollForSrq | SW/TestAndMeasurement/TestAndMeasurement.c:1187-1204 | the poll's bits, RQS excepted, join those to be reported, and its byte with RQS set goes out on the interrupt endpoint under tag 1 |
| Bridge.Adapter.ServeSrq | SW/TestAndMeasurement/TestAndMeasurement.c:1187-1204 | the same, with control requests coming in during the notification |
| Bridge.Adapter.ServeClear | SW/TestAndMeasurement/TestAndMeasurement.c:1207-1213 | the device clear of an accepted INITIATE_CLEAR is called for once and carried out unless it times out |
| Bridge.Adapter.ServeLockout | SW/TestAndMeasurement/TestAndMeasurement.c:1215-1220 | local lockout reaches the instrument once, or times out and is recorded as such |
| Bridge.Adapter.ServeGoToLocal | SW/TestAndMeasurement/TestAndMeasurement.c:1222-1232 | go to local reaches the instrument once unless it times out |
| Bridge.Adapter.ServeAtRest | SW/TestAndMeasurement/TestAndMeasurement.c:1222-1239 | between transfers go to local is served and the remote enable line set as last asked for |
| Bridge.Adapter.TriggerInstrument | SW/TestAndMeasurement/TestAndMeasurement.c:1250-1255 | the trigger reaches the instrument once unless it times out; the packet is released |
| Bridge.Adapter.HandleMsgOut | SW/TestAndMeasurement/TestAndMeasurement.c:1256-1272 | the first packet of a transfer: its payload bytes arrive, the rest of the size is open |
| Bridge.Adapter.HandleMoreBytes | SW/TestAndMeasurement/TestAndMeasurement.c:1351-1375 | a further packet: its bytes arrive, EOI exactly at the end of the transfer |
| Bridge.Adapter.HandleMsgIn | SW/TestAndMeasurement/TestAndMeasurement.c:1273-1347 | a request becomes one response under its tag, with its size and termination character, from the buffered answer if and only if there is one, unless aborted; in an undisturbed run it waits for ever if and only if bytes are wanted and the rest of a half-read answer is gone |
| Bridge.Adapter.ReadAnswer | SW/TestAndMeasurement/TestAndMeasurement.c:1296-1343 | the next part of the answer, as much as is asked for, with the end-of-message flag exactly at its end; the instrument is left alone |
| Bridge.Adapter.ReadInstrument | SW/TestAndMeasurement/TestAndMeasurement.c:1315-1343 | the response read from the instrument; when a message is taken to have begun and the instrument is no talker, it waits for ever if and only if bytes are wanted and no abort comes |
| Bridge.Adapter.Transmit | SW/TestAndMeasurement/TestAndMeasurement.c:1321-1338 | the packets of the response under the current tag |
| Bridge.Adapter.FinishRead | SW/TestAndMeasurement/TestAndMeasurement.c:1316-1343 | response, or after an abort none: transfer state reset and a waiting device clear dropped |
| Bridge.Adapter.ReportStatus | SW/TestAndMeasurement/TestAndMeasurement.c:1377-1393 | the last status reply not repeated so far goes out on the interrupt endpoint under its tag with bit 7 set; without one nothing does |
| Bridge.Adapter.ResetStates | SW/TestAndMeasurement/TestAndMeasurement.c:1117-1131 | all transfer state, the buffered answer and every waiting request are reset and the bus cleared |
| Bridge.Adapter.TakeHeader | SW/TestAndMeasurement/TestAndMeasurement.c:1432-1455 | the tag of the header is the current one from now on |
| Bridge.Adapter.Epilogue | SW/TestAndMeasurement/TestAndMeasurement.c:1396-1421 | reset flags go down only together with a flush, a waiting device clear being sent first; then the transfer state is that after start-up, except for the note that a write is busy; without flags nothing changes |
| Bridge.Adapter.TransferStep | SW/TestAndMeasurement/TestAndMeasurement.c:1184-1375 | what was received plus what the packets still owe stays the same, and so do the responses given plus those still asked for; a packet at hand is processed, and one of a queue of packets in their places is done with in one pass |
| Bridge.Adapter.Step | SW/TestAndMeasurement/TestAndMeasurement.c:1184-1375 | in terms of the last flush: received plus owed is what had been received and was owed then, and the answered requests plus those still to be served are those that were left then |
| Bridge.Adapter.Conclude | SW/TestAndMeasurement/TestAndMeasurement.c:1396-1424 | a flush is a new beginning of that account, with the packets it left; without one the account goes on |
| Bridge.Adapter.TmcTask | SW/TestAndMeasurement/TestAndMeasurement.c:1172-1424 | the same for a whole pass, after which no reset flag is up |
| Bridge.Adapter.Run | SW/TestAndMeasurement/TestAndMeasurement.c:1172-1424 | whole runs of a host whose requests are of the kinds described: conservation of the data and of the read requests since the last flush, sound split transactions, status conservation, deferred polls answered once and, without an abort since the last flush, pending only while a write is busy, responses from the right place, sound reads, internal commands with the effect of what they spell, the instrument's status answers and orders those of the history, the packets sent those of the responses, the interrupt packets those of the polls and replies, a queue of packets worked off packet by packet; a read waits for ever only if it was orphaned or the run disturbed |
| Transfers.OwedTransfers | SW/TestAndMeasurement/TestAndMeasurement.c:1256-1272 | the packets of any transfers owe the instrument exactly their payloads with EOI where the end-of-message bit asks for it |
| Transfers.SizeRoundTrip | SW/TestAndMeasurement/TestAndMeasurement.c:1257-1259 | the size in the header is read back as it was encoded |
| Transfers.InPlaceTransfers | SW/TestAndMeasurement/TestAndMeasurement.c:1256-1272 | the packets of transfers are found each in its place |
| Transfers.AsksOfTransfers | SW/TestAndMeasurement/TestAndMeasurement.c:1256-1272 | the packets of transfers ask for no response |
| Transfers.Session | SW/TestAndMeasurement/TestAndMeasurement.c:1172-1424 | end to end, for all transfers and all scripts: whenever they hold no INITIATE and no INDICATOR_PULSE the instrument has received everything after as many passes with a packet as there are packets; in every run the same holds, from the last flush on, of the packets it left, if these are whole transfers and nothing was taken for an internal command since |
| UsbPackets.PacketiseIsOneTransfer | SW/TestAndMeasurement/TestAndMeasurement.c:1329-1338 | full packets and then one short packet, carrying the data |
| UsbPackets.OneTransferIsPacketise | SW/TestAndMeasurement/TestAndMeasurement.c:1329-1338 | there is no other correctly terminated transfer with that data |
| UsbPackets.HostReadsTransfer | SW/TestAndMeasurement/TestAndMeasurement.c:1329-1338 | a host cuts the packet stream back into exactly that transfer |
| UsbPackets.StreamingPacketises | SW/TestAndMeasurement/TestAndMeasurement.c:1329-1338 | streaming, final commit and the empty packet after a multiple of 64 give the packetisation, for any length |
| UsbPackets.Endpoint.WriteBytewise | SW/TestAndMeasurement/TestAndMeasurement.c:1457-1482 | the reference writer; if the host is gone it stops with what it had written so far |
| UsbPackets.Endpoint.WriteQuick | SW/TestAndMeasurement/TestAndMeasurement.c:1134-1169 | refines the byte-wise writer, never overfills a bank, and stops in the same way |
| UsbPackets.Endpoint.SendResponse | SW/TestAndMeasurement/TestAndMeasurement.c:1321-1338 | a response is sent as one transfer of header and payload; if the host leaves, it is cut off behind some byte; an aborted read commits empty packets only |
| UsbPackets.HostDecodesReplies | SW/TestAndMeasurement/TestAndMeasurement.c:1484-1499 | from the packets of any responses the host gets back their tags, payloads and end-of-message flags |
| Responses.InstrumentPayloads | SW/TestAndMeasurement/TestAndMeasurement.c:1296-1327 | the payloads of the responses that came from the instrument are what it was read |
| Responses.RepliesAreCut | SW/TestAndMeasurement/TestAndMeasurement.c:1090-1108 | each response answers its request under its tag, and each of the instrument's is what it says from the end of the one before, cut at the first end or the size asked for |
| Responses.HostReceivesWhatWasSaid | SW/TestAndMeasurement/TestAndMeasurement.c:1273-1338 | from the packets of all responses the host decodes the tags of the requests, payloads and end-of-message flags, cut so, and the payloads of the instrument's responses are its stream from its first byte on |
| Responses.ReadSession | SW/TestAndMeasurement/TestAndMeasurement.c:1172-1424 | end to end, for the packets sent since the last flush in all runs of a freshly configured adapter in which nothing disturbed a message being read since, internal commands included: every response is the talker's stream from the end of the one before it, cut at its first end or at the size asked for and flagged accordingly, and every request found is answered once; for a host that asks for whole messages that is every run, and no read waits for ever |
| Dialogue.OneMessage | SW/TestAndMeasurement/TestAndMeasurement.c:1241-1350 | the packets of a write, a read request or a trigger owe the instrument the payload, are in their places and ask for the one response |
| Dialogue.StreamIsOrdered | SW/TestAndMeasurement/TestAndMeasurement.c:1241-1350 | the same for any sequence of them |
| Dialogue.WholeReplies | SW/TestAndMeasurement/TestAndMeasurement.c:1296-1327 | without internal commands every response comes from the instrument, and for a host that asks for whole messages each ends its message |
| Dialogue.CutIntoMessages | SW/TestAndMeasurement/TestAndMeasurement.c:1090-1108 | responses of the instrument that each end a message are its messages one by one, each up to and including the first end |
| Dialogue.MessageIsUnique | SW/TestAndMeasurement/TestAndMeasurement.c:1090-1108 | from a given place on there is one such message at most |
| Dialogue.Converse | SW/TestAndMeasurement/TestAndMeasurement.c:1172-1424 | end to end, for all writes, triggers and whole-message reads and all scripts without INITIATE, INDICATOR_PULSE and READ_STATUS_BYTE: everything is received, and every read is answered in order under its tag by the message of the instrument that begins where the one before it ended |
| Deviations.RefusedAbort | SW/TestAndMeasurement/TestAndMeasurement.c:723-747 | an abort refused for its tag still flushes and resets |
| Deviations.HangingRead | SW/TestAndMeasurement/TestAndMeasurement.c:1296-1320 | a query, a part of its answer, another internal command: the next read waits for ever if and only if that one is no query and bytes are wanted |
| Deviations.TwoCommands | SW/TestAndMeasurement/miniparser.c:16-33 | ver? and term cr are such commands |
| Deviations.PolledMessage | SW/TestAndMeasurement/TestAndMeasurement.c:669-698 | a status poll between two reads of one message: the next read waits for ever if and only if bytes are wanted and no abort comes |
| Deviations.LostBytes | SW/TestAndMeasurement/TestAndMeasurement.c:1039-1054 | a packet of any length of which the adapter takes all bytes for sent and the instrument hears the first alone |
| Deviations.AbortedWrite | SW/TestAndMeasurement/TestAndMeasurement.c:1061 | after an abort of a transfer with more to come the endpoints are flushed, nothing is open, and a write still counts as busy |
| Deviations.UnansweredStatus | SW/TestAndMeasurement/TestAndMeasurement.c:710-722 | so the next status request is not answered |
| Deviations.LostClear | SW/TestAndMeasurement/TestAndMeasurement.c:1340-1343 | a clear answered SUCCESS for which the instrument was never sent a device clear |
| InternalCommands.QueriesAnswer | SW/TestAndMeasurement/miniparser.c:85-226 | exactly the four queries answer, and every answer fits the buffer |
| InternalCommands.SettingsAreReported | SW/TestAndMeasurement/miniparser.c:85-226 | a setting is reported as the word of the command that made it |
| Controller.Bus.Wait | SW/TestAndMeasurement/gpib_priv.h:86-101 | a wait loop ends on any bus; its polls are paid for by the budget, except one that finds it empty; on an honest bus it times out if and only if the line is held longer than the budget lasts |
| Controller.Bus.SendCommand | SW/TestAndMeasurement/gpib_priv.h:51-114 | heard by all devices, or timed out with all lines released |
| Controller.Bus.SendAddress | SW/TestAndMeasurement/gpib.c:91-111 | the secondary byte is put out if and only if there is one, whatever became of the primary one, which costs at most one poll more |
| Controller.Bus.ReadData | SW/TestAndMeasurement/gpib_priv.h:128-188 | ends on any bus with NRFD held, after a timeout with everything else released |
| Controller.Bus.ReadStatusByte | SW/TestAndMeasurement/gpib.c:149-176 | after timeout_start(T) at most T + 2 polls whatever the lines do, and no transaction left open |
| Controller.Bus.Search | SW/TestAndMeasurement/gpib.c:433-485 | ends on any bus; on one whose devices complete an address within the 500 polls, however these are spread over its handshakes, it returns the smallest primary-only address, else 32 plus the smallest primary address of a device with secondary address 0, else 255 |
| Controller.PrimaryAnswers | SW/TestAndMeasurement/gpib.c:449-458 | a primary listen address is answered exactly by the primary-only devices there |
| Controller.ExtendedAnswers | SW/TestAndMeasurement/gpib.c:449-458 | with secondary address 0 also exactly by the extended devices there |
| Controller.SearchStep | SW/TestAndMeasurement/gpib.c:444-461 | one more address tried keeps what the search knows |
| Controller.Recheck | SW/TestAndMeasurement/gpib.c:467-480 | the check without secondary address finds nothing new, and the result is right |
| CommandTable.TableCoversCommands | SW/TestAndMeasurement/miniparser.c:16-33 | the packed table is well-formed, its links increase, the letters of a node differ, and it spells exactly the 22 commands with their handlers |
| CommandParser.TableIsTheList | SW/TestAndMeasurement/miniparser.c:16-33 | looking a string up in the packed table and in the list of the 22 commands gives the same handler or none, for every string |
| CommandParser.PrefixFree | SW/TestAndMeasurement/miniparser.c:16-33 | no command is the beginning of another one, read off the table |
| CommandParser.ReadCommand | SW/TestAndMeasurement/miniparser.c:306-371 | a command in any mixture of cases calls its handler; "addr" starts the numbers |
| CommandParser.Parser.Reset | SW/TestAndMeasurement/miniparser.c:298-302 | back to the root with nothing read |
| CommandParser.Parser.Scan | SW/TestAndMeasurement/miniparser.c:327-370 | the scan of a node, inside its record, calls the handler exactly when the letters now spell it, follows a letter exactly when some command goes on so, and else returns to the root |
| CommandParser.Parser.Add | SW/TestAndMeasurement/miniparser.c:306-371 | the table interpreter refines the reference parser on the list of strings, for every byte sequence |
| CommandParser.Parser.AddToNumber | SW/TestAndMeasurement/miniparser.c:243-268 | the decoder on its self-indexed array does the specified step |
| CommandParser.Parser.Finalize | SW/TestAndMeasurement/miniparser.c:272-295 | the address changes exactly if number mode is on and the numbers are accepted |
| CommandParser.Parser.Process | SW/TestAndMeasurement/TestAndMeasurement.c:981-1006 | the handlers called and the new address are those of the reference parser on the message without line ends, up to its first command, and an underscore |
| CommandParser.CommandMessage | SW/TestAndMeasurement/TestAndMeasurement.c:981-1006 | a message that spells a command runs that command once and nothing else |
| CommandParser.OneCommand | SW/TestAndMeasurement/TestAndMeasurement.c:988-999 | no message runs more than one command, the underscore included |
| CommandParser.SlowMessage | SW/TestAndMeasurement/TestAndMeasurement.c:998 | the underscore completes "autoid slow" |
| CommandParser.AddressMessage | SW/TestAndMeasurement/miniparser.c:234-295 | "addr p s" with anything that is not a digit around the numbers: from then on the bus sees 0x20 or 0x40 plus p and 0x60 plus s modulo 96 |
| CommandParser.AddressTaken | SW/TestAndMeasurement/miniparser.c:234-295 | the same for numbers of any size, in terms of what they are read as |
| CommandParser.PrimaryMessage | SW/TestAndMeasurement/miniparser.c:281-284 | "addr p" alone: the bus sees the first byte alone |
| AddressNumber.SmallNumbersAreExact | SW/TestAndMeasurement/miniparser.c:248-260 | a number below 255 is read as it is written |
| AddressNumber.FirstNumber | SW/TestAndMeasurement/miniparser.c:248-260 | any digit string is read as the digits since the last restart, modulo 256 |
| AddressNumber.TwoNumbers | SW/TestAndMeasurement/miniparser.c:243-295 | numbers of any size with anything that is not a digit around them select what they are read as, a 255 counting as absent |
| AddressNumber.TwoNumbersExactly | SW/TestAndMeasurement/miniparser.c:243-295 | that is what was meant if and only if both are below 255 or what they are read as is refused |
| AddressNumber.OneNumber | SW/TestAndMeasurement/miniparser.c:243-284 | any number alone; what it selects is what was meant if and only if it is below 255 or the digits since the last restart write no primary address modulo 256 |
| AddressNumber.LargeNumbersWrap | SW/TestAndMeasurement/miniparser.c:250-258 | 257 selects 1, 2555 selects 5, "255 5" and "5 255" select 5, "5 352" selects 5 with secondary address 0 |
| AddressNumber.MessageStaysInside | SW/TestAndMeasurement/miniparser.c:253-267 | a whole message with two numbers, neither read as 255, is read inside the array if and only if at most one character, digit or not, follows the second number |
| AddressNumber.AbsentNumberStaysInside | SW/TestAndMeasurement/miniparser.c:253-267 | if one of two numbers counts as absent, what is not a digit behind them stays inside, however long |
| AddressNumber.OneNumberStaysInside | SW/TestAndMeasurement/miniparser.c:253-267 | one with a single number always is |
| AddressNumber.SelectedReachesTheBus | SW/TestAndMeasurement/gpib.c:91-111 | the selected address byte makes LAG and TAG send exactly the written addresses |
| SerialString.ReadSerial | SW/TestAndMeasurement/TestAndMeasurement.c:278-304 | the read and strip loops store the cleaned characters without their trailing underscores, and stop exactly at EOI, timeout or the full buffer |
| SerialString.Strip | SW/TestAndMeasurement/TestAndMeasurement.c:301-303 | the strip loop |
| SerialString.DoublesComeFromGaps | SW/TestAndMeasurement/TestAndMeasurement.c:288-298 | two underscores are stored side by side if and only if unprintable characters alone stood between two special ones |
| SerialString.StrippedAfterLastKept | SW/TestAndMeasurement/TestAndMeasurement.c:301-303 | stripping leaves what was stored up to the last ordinary character |
| SerialString.StoredString | SW/TestAndMeasurement/TestAndMeasurement.c:278-304 | the serial string has allowed characters only, no trailing underscore, and no doubled one if and only if there was no such gap |
| SerialString.DoubledAfterAll | SW/TestAndMeasurement/TestAndMeasurement.c:290-297 | an answer that gets a doubled underscore past the suppression |
| Fat12.UpdateFAT12ClusterEntry | SW/MassStorage/Lib/VirtualFAT.c:245-265 | the in-place update is the specified one, for any index and entry of 16 bits |
| Fat12.DecodeUpdated | SW/MassStorage/Lib/VirtualFAT.c:245-265 | the entry decodes to what was written; the one behind an even entry loses its low four bits; all others stay |
| Fat12.FarEntriesWrap | SW/MassStorage/Lib/VirtualFAT.c:250 | an entry beyond 170 keeps its value |
| Fat12.FirstEntryOverwritten | SW/MassStorage/Lib/VirtualFAT.c:250 | writing entry 171 overwrites entry 0 |
| Fat12.UpdateFAT12ClusterChain | SW/MassStorage/Lib/VirtualFAT.c:277-292 | the loop writes the specified chain, for any start cluster of 16 bits |
| Fat12.ChainDecodes | SW/MassStorage/Lib/VirtualFAT.c:277-292 | the chain decodes to start, start+1, ..., end mark, with the exact frame |
| Fat12.NeighbourKept | SW/MassStorage/Lib/VirtualFAT.c:260-264 | the entry behind a chain is kept if and only if the last cluster is odd or its low bits were ones |
| Fat12.BothFilesFollow | SW/MassStorage/Lib/VirtualFAT.c:451-465 | for all start clusters that do not overlap, both files can be followed if and only if EEPROM.BIN is not in the even cluster right before FLASH.BIN |
| Fat12.ShippedTable | SW/MassStorage/Lib/VirtualFAT.c:451-465 | every entry of the table as shipped |
| FlashMemory.Chip.ErasePage | SW/MassStorage/BootloaderAPI.c:52-63 | the page reads as ones, or the address is refused and nothing changes |
| FlashMemory.Chip.WritePage | SW/MassStorage/BootloaderAPI.c:65-76 | bits are cleared as the buffer says, in that page only |
| FlashMemory.Chip.FillWord | SW/MassStorage/BootloaderAPI.c:78-81 | one word of the page buffer, low byte first |
| FlashMemory.Program | SW/MassStorage/BootloaderAPI.c:65-76 | programming only clears bits and writes an erased cell exactly |
| FlashMemory.WriteBlock | SW/MassStorage/Lib/VirtualFAT.c:333-354 | from any flash contents the block ends up exactly as the buffer and every other byte as before |
| VirtualDisk.Disk.ReadWriteFLASHFileBlock | SW/MassStorage/Lib/VirtualFAT.c:303-355 | reads the mapped sector or replaces it, for any start cluster; nothing outside the file |
| VirtualDisk.Disk.ReadWriteEEPROMFileBlock | SW/MassStorage/Lib/VirtualFAT.c:366-392 | the same for the EEPROM |
| VirtualDisk.Disk.VirtualFAT_WriteBlock | SW/MassStorage/Lib/VirtualFAT.c:399-428 | boot and table blocks are ignored, the directory copied, file blocks stored |
| VirtualDisk.Disk.VirtualFAT_ReadBlock | SW/MassStorage/Lib/VirtualFAT.c:435-482 | what the host gets for every block, whatever start clusters the directory holds, nothing changed |
| ScsiDisk.WriteRefines | SW/MassStorage/Lib/VirtualFAT.c:399-428 | with the files where they are shipped, a block write is a write to the plain disk and leaves the flash behind the file alone |
| ScsiDisk.ReadRefines | SW/MassStorage/Lib/VirtualFAT.c:435-482 | a block read is a read of the plain disk |
| ScsiDisk.ReadWrite10 | SW/MassStorage/Lib/SCSI.c:238-274 | a command does to the disk and answers what it does on the plain disk |
| ScsiDisk.Serve | SW/MassStorage/Lib/SCSI.c:238-274 | so does any sequence of commands that leaves the files where they are, block numbers wrapping included |
| ScsiDisk.LastWritten | SW/MassStorage/Lib/SCSI.c:262-268 | after a write every file sector holds the block sent for it or what it held before |
| ScsiDisk.ReadBack | SW/MassStorage/Lib/SCSI.c:262-268 | blocks written inside the files read back |
| ScsiDisk.RejectsOutside | SW/MassStorage/Lib/SCSI.c:245-259 | the address check is right if and only if the address fits 16 bits or its low 16 bits are outside too |
| ScsiDisk.FarWriteHitsTheFile | SW/MassStorage/Lib/SCSI.c:245-268 | a write to block 0x10004 replaces the first sector of FLASH.BIN |

## Left out

- The standard USB requests and the indicator pulse itself.
- Bridge.Adapter.Handshake: carries a byte in one step, with what Handshakes.OneHandshake proves of the step-by-step one; the step machines do not run inside the bridge.
- Bridge.Adapter.RunInternal: the restart into the boot loader ("!reset") has no effect in the model, and the addressed instrument is exchanged for another one when the address changes.
- Bridge.Adapter.Run: what is read is promised for runs in which no serial poll, write or trigger falls into a message being read, because these un-address the talker (Deviations.PolledMessage says what comes of it).
- Bridge.Adapter.Transmit: the host stays; one that leaves is covered by UsbPackets.Endpoint.SendResponse alone.
- Controller.Bus.Search: promised for devices with primary address 1 to 30, or 0 to 30 with a secondary address.
- CommandParser.Parser.Process: begins with the characters the endpoint delivers. The caller passes a length that still counts the exclamation mark, so one character more than the message is read; any such character is covered.
- ScsiDisk.Serve: directory writes are covered as long as they leave both start clusters where they are.
- INQUIRY, REQUEST SENSE, MODE SENSE, capacity and the contents of the boot block: constant answers.
- SerialString.ReadSerial: the addressing around it and the second query ("ID?"), which does not suppress doubled underscores, are left out; with nothing stored the code looks at the word before the buffer, without effect.
- The choice between the instrument's serial string and the built-in one, connection detection, indicator lights, real-time delays, start-up, watchdog and boot-loader jumps.
- USB enumeration and the LUFA library: a bulk endpoint is a bank of 64 bytes with a commit.
