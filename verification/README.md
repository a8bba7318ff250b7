# Verified model of the flash loader and of the uIP stack

This project models the two parts of the MSX USB cartridge software whose behaviour over whole
runs is hardest to see from the code, and proves what they promise.

**The flash loader** (`Chip.dfy`, `Flash.dfy`, `FlashCopy.dfy`, `FlashLoader.dfy`) identifies, erases and programs a
flash chip through 8 KB windows whose bank registers share their addresses with the flash data. The
chip and the mapper are a class that follows the repository's own hardware specification, with the
duration of operations, the bits that have not settled and the damage done by a corrupting chip left
open. The C functions are methods with the same globals. The main result, `Loader.Run`, is about the
program from its arguments to its end.

**uIP** is modelled in layers.

- `Tcp.dfy`: what one invocation of the engine does to one connection, as a transition function with
  the invariant every step keeps and the exact time until an unanswered connection is given up.
- `TcpNet.dfy`: two such endpoints with their histories and a network that loses, duplicates, delays
  and reorders. The main result is `DeliveryIsFaithful`.
- `TcpPromises.dfy`: what an invocation owes the peer and the application, in terms of packets and fields.
- `TcpStopWait.dfy`, `TcpProgress.dfy`, `TcpConversation.dfy`: what goes on over runs. At most one segment
  is in flight and it is repeated whole; from every reachable state of two connected sides what has
  been lost can still get through (`InFlightGetsThrough`); whole conversations exist
  (`WholeConversation`).
- `TcpReopen.dfy`: old packets that meet a new incarnation of a connection.
- `Uip.dfy`: the connection table. The in-place code of the timer, the input, listening and
  connecting is proved to refine the transition function.
- `WebClient.dfy`, `WebRequest.dfy` and `WebPeer.dfy`: the sending side of the HTTP client, alone, on
  top of the network and against any peer. The main results are `RequestIsDelivered` and
  `PiecesAreTheRequest`.
- `Checksum.dfy`, `Packet.dfy`, `Icmp.dfy`: one's complement sums, the 32-bit adder, the headers of
  outgoing packets, splitting a packet in two, and the adjusted checksum of echo replies.
- `Psock.dfy`: the line and block readers, whose results must not depend on how TCP has cut the stream.
- `Resolv.dfy`: the retry timer of the DNS resolver and the entries its names take.

`Bytes.dfy`, `Wrappers.dfy` and `UipOpt.dfy` hold the integer types, `Option`, and the sizes uIP is compiled with.

The uIP model follows `software/uip_hello/uip`, with the sizes of `software/uip_hello/src/uip-conf.h`
(buffer of 420 bytes, 40 connections).

## What the proofs brought to light

- Identification is fooled exactly by arrays whose first two bytes look like an AMD or AMIC
  identification. Such an SST chip is taken for an AMD chip, and erasing it fails without effect.
- Data that arrives in FIN_WAIT_1 or FIN_WAIT_2 is acknowledged and dropped
  (`TakenOverIsGivenUnlessClosing`), so that acknowledged does not mean delivered once the
  receiver has closed.
- A SYN that the network duplicates makes the listener answer with an ACK, which aborts the side that
  is opening (`DuplicateSynAbortsRun`); anything but a SYNACK does (`OpeningIsAborted`). Delivery stays
  faithful, but the connection is lost.
- Without an MSS option a passively opened connection keeps the segment size of the connection that
  used its table entry before (`PassiveSize`). In an entry that has not been used that is zero, and
  the connection never sends a byte of data (`FreshEntryIsMute`).
- The HTTP client takes an acknowledgment for one of as many bytes as the segment size is when it is
  called. A window that has changed by then puts it out of step (`SizeMustFit`), and a peer can make
  it send bytes of any request twice, as new ones, unless its file and host names are both empty
  (`SmallerWindowRepeatsBytes`). Between two uIP endpoints the window never changes.
- Old packets can give their data to a new incarnation of a connection, since initial sequence
  numbers grow by one with every call of the timer only (`OldDataEntersRun`); the condition is exact
  (`OldDataEntersExactlyWhen`).
- A file larger than the chip is not refused: it is programmed around the chip, and the run reports
  completion if what comes later happens to set no bit (`Run`, `NextSegmentRewritable`).
- The adjusted checksum of an echo reply is wrong for exactly one kind of message: one in which
  nothing but the type and the checksum is different from zero (`ReplyAccepted`).
- The resolver does not replace its entries in turn. `resolv_init` marks them as used, so that the
  first two names share an entry; after 256 names the 8-bit counter has come around, and soon entry 0
  is the only one that is ever replaced (`OldestIsReplaced`, `OthersStarve`).

## Model

| member | source | states |
|---|---|---|
| ChipModel.Chip.Write | software/flash/tests/flash_test.cpp:61-103 | A bus write uses the bank that was selected before it, then latches bank registers, and moves the command state machine exactly as the transition function says; an operation it starts takes at least one read and at most as many as the slowest of this chip |
| ChipModel.Chip.Read | software/flash/tests/flash_test.cpp:105-129 | A read shows status while an operation runs (DQ7 inverted, DQ6 toggling, DQ5 set for SST and stuck chips), commits the operation on its last read with only DQ7 reliable, and otherwise shows the identification or the array |
| Flash.UnlockAccepted | software/flash/src/flash.c:273-278 | The three unlock writes reach the command addresses of a chip whose family was chosen, whatever the bank in page 1 and with the command banks mapped for SST, and hand it the command |
| Flash.UnlockIgnored | software/flash/src/flash.c:273-278 | The unlock writes of the AMD family leave an empty slot or an SST chip exactly as it was |
| Flash.CommandBanksSelected | software/flash/src/flash.c:255-265 | Mapping the two SST command banks before a sequence changes only the bank registers; no operation starts and no command is aborted |
| Flash.MapperWriteBreaksUnlock | software/flash/src/flash.c:259-260 | A bank register written between unlock cycles aborts the sequence, which is why the banks are mapped first |
| Flash.SegmentAddress | software/flash/src/flash.c:469-471 | Offset i of page 1 reaches byte i of the selected 8 KB segment, with the address lines the smaller chip ignores taken into account |
| Flash.DataWrite | software/flash/src/flash.c:483-486 | A data write at 5x00 also changes the bank register, and writing the segment number back leaves exactly a chip that programs the intended byte |
| FlashCopy.CopyStep | software/flash/src/flash.c:140-160 | One more programmed segment keeps the correspondence between the array, the counter of written bytes, the 8-bit segment number and how often the file has gone around the chip |
| FlashCopy.NextSegment | software/flash/src/flash.c:159 | Segment numbers, 8 bits wide, go around exactly with the chip |
| FlashCopy.NextSegmentRewritable | software/flash/src/flash.c:153-155 | As the array stands when a segment is due, programming it means setting no bit if and only if no byte of it sets a bit of the byte one chip size earlier in the file |
| FlashCopy.CopyDone | software/flash/src/flash.c:140-171 | When all bytes are counted as written, every array byte is the last one of the file that goes there, or FFh |
| FlashCopy.FilledFits | software/flash/src/flash.c:140-171 | For a file that fits, that is the file followed by FFh |
| FlashCopy.CopyStopped | software/flash/src/flash.c:152-155 | When programming a segment fails, the array is what the copied part of the file makes it, up to the failing byte |
| FlashCopy.PartlyFilledFits | software/flash/src/flash.c:152-155 | For a file that fits, that is an erased array but for a correct prefix of the file and at most one bad byte |
| FlashCopy.ImpostorsExist | software/flash/src/flash.c:297-304 | An SST chip that identification takes for an AMD chip |
| Flash.DetectsExactly | software/flash/src/flash.c:297-333 | In numbers: a chip is reported if and only if it is one of the three AMD and AMIC chips, an SST chip whose first two bytes are one of their three identifications, or the supported SST chip with the stack pointer at C100h or above |
| FlashCopy.SlotIsDigit | software/flash/src/flash.c:75-86 | The slot asked for is the digit of the flag /S0 to /S3, in either case of the letter |
| FlashCopy.NameMissing | software/flash/src/flash.c:88-92 | The name is missing if and only if such a flag is the only argument |
| FlashLoader.Loader.SetFlashType | software/flash/src/flash.c:248-253 | The unlock addresses always belong to the chosen family |
| FlashLoader.Loader.SelectFlashCommands | software/flash/src/flash.c:255-265 | For SST page 2 shows the cartridge with the command banks in place; for the other family nothing changes. Page 2 never hides the RAM unless the stack is in page 3 |
| FlashLoader.Loader.RestoreFlashCommands | software/flash/src/flash.c:267-271 | Page 2 shows RAM again for SST |
| FlashLoader.Loader.FlashUnlock | software/flash/src/flash.c:273-278 | A chip of the chosen family takes the command; one that is not is left alone |
| FlashLoader.Loader.PollLoop | software/flash/src/flash.c:441-455 | At most 1,000,000 rounds; success means an idle chip with the right byte, failure an idle chip with a wrong byte, a stuck chip or an exhausted bound |
| FlashLoader.Loader.FlashCommandOkay | software/flash/src/flash.c:438-464 | Terminates; TRUE implies an idle chip and the expected byte for stuck and corrupting chips too; a chip that finishes within 1,000,000 reads is judged exactly by its array even if DQ7 settles first; a stuck chip, or one that needs more than 1,000,001 reads, gives FALSE |
| FlashLoader.Loader.EraseSelected | software/flash/src/flash.c:418-424 | The erase command reaches a chip of the chosen family and no other, and the answer judges its first byte |
| FlashLoader.Loader.EraseFlash | software/flash/src/flash.c:411-435 | Exactly one erasure and no aborted command on a chip of the chosen family; TRUE implies an idle chip full of FFh; every chip that is not stuck and finishes in time gives TRUE; pages 1 and 2 show RAM afterwards on both paths |
| FlashLoader.Loader.FileByte | software/flash/tests/flash_test.cpp:157-162 | The file buffer is read only while page 2 shows RAM and with the stack above it (preconditions met at every call) |
| FlashLoader.Loader.CommandProgram | software/flash/src/flash.c:479-486 | Unlock, data write and bank repair leave the chip programming exactly the intended byte with page 2 back on RAM |
| FlashLoader.Loader.ProgramByte | software/flash/src/flash.c:476-493 | One byte is touched and no other; TRUE implies it is right; a healthy chip gives TRUE if and only if no bit has to be set |
| FlashLoader.Loader.WriteFlashSegment | software/flash/src/flash.c:466-504 | TRUE implies that exactly the 8192 bytes of the segment changed, to the buffer, whatever the chip does at program time; FALSE that programming stopped at some byte with all bytes before it right and none after it touched; a healthy chip gives TRUE if and only if no bit has to be set |
| FlashLoader.Loader.FlashIdent | software/flash/src/flash.c:285-351 | The array, the operation counters and the absence of aborted commands are preserved and the chip reads out its array; a chip is reported exactly when it is AMD or AMIC, mimics one in its first two bytes, or is the supported SST chip with the stack in page 3; the command set chosen matches. In particular an SST39SF040 that mimics nothing is found, as SST, with every stack pointer from C100h on |
| FlashLoader.Loader.FindFlash | software/flash/src/flash.c:358-373 | For every assignment of chips to the four slots: the highest slot in which identification reports a chip, with its command set, or 4; all chips undisturbed |
| FlashLoader.Loader.FcbRead | software/flash/src/flash.c:144-148 | The next part of the file, all that is left if it fits the buffer; an error exactly where the disk cannot be read |
| FlashLoader.Loader.WriteFile | software/flash/src/flash.c:134-167 | For every file, larger than the chip or not: if the count reaches the file size, every array byte is the last one of the file that goes there, after one programming operation per byte of the segments; a count that stops short leaves what the copied part makes of the array, and at most one bad byte; the count reaches the size only if no read fails and, on a healthy chip, if and only if no read fails and no segment has to set a bit of the one it replaces |
| FlashLoader.Loader.LoadChosen | software/flash/src/flash.c:113-174 | The file is opened and closed exactly once, only the chosen chip is changed, and completion is as promised for its kind |
| FlashLoader.Loader.constructor | software/flash/src/flash.c:29-31 | The program as loaded meets what it asks for before it runs |
| FlashLoader.Loader.SlotArgument | software/flash/src/flash.c:75-86 | The slot flag of the first argument, and whether there is one |
| FlashLoader.Loader.Run | software/flash/src/flash.c:58-176 | The whole program, from its arguments and the disk. Each early end is returned exactly for its reason, checked in the order of the code. A run that reports completion has left in the chosen chip, byte for byte, the last byte of the file that goes there (by FilledFits the file followed by FFh, if it fits), after one erasure, one programming operation per byte of the segments and no aborted command; a run that does not has left the array as it was, or as the copied part of the file makes it but for at most one bad byte. With a healthy chip, completion is reported if and only if the chip does not mimic another family, no read that is needed fails and the file, where it goes around the chip, sets no bit; an impostor and a stuck chip end in a failed erasure, the impostor untouched. Every other chip is as it was, the file is closed if it was opened, and pages 1 and 2 show RAM on every exit path |
| Tcp.TickKeeps | software/uip_hello/uip/uip.c:709-812 | The state invariant survives the periodic timer (1 outstanding in SYN_SENT, SYN_RCVD, FIN_WAIT_1, CLOSING, LAST_ACK; 0 in FIN_WAIT_2 and TIME_WAIT; mss <= initialmss <= UIP_TCP_MSS; len and nrtx within limits) and every packet fits the buffer |
| Tcp.ReceiveKeeps | software/uip_hello/uip/uip.c:1385-1789 | The same for every segment in every state, with any answer of the application |
| Tcp.OpenKeeps | software/uip_hello/uip/uip.c:1307-1360 | The same for connections opened passively and actively |
| Tcp.SilentPeerCloses | software/uip_hello/uip/uip.c:738-803 | A connection with outstanding data and a silent peer is closed after a number of ticks that is given exactly, and not before |
| Tcp.GiveUpBound | software/uip_hello/uip/uip.c:743-765 | That number is at most the current timer plus 246, and exactly that for data not yet repeated |
| Tcp.WaitStateCloses | software/uip_hello/uip/uip.c:732-737 | FIN_WAIT_2 and TIME_WAIT close after an exact number of ticks, at most 256, although the 8-bit timer may wrap around first |
| Tcp.PassiveSize | software/uip_hello/uip/uip.c:1307-1360 | The segment size of a passively opened connection is not zero if and only if the offered one is not or, without an offer, that of the connection which had the table entry before |
| Tcp.SendsExactlyWhen | software/uip_hello/uip/uip.c:1670-1692 | A connection can put data in flight exactly when its segment size is not zero |
| Tcp.MuteForever | software/uip_hello/uip/uip.c:1612-1629 | A segment size of zero stays zero: no packet of any further run carries data, whatever the application and the peer do |
| Tcp.FreshEntryIsMute | software/uip_hello/uip/uip.c:1329-1330 | A table entry that has never been used, opened by a SYN without the option, never sends a byte of data |
| Tcp.OpeningFails | software/uip_hello/uip/uip.c:1490-1548 | Exactly which segments end an attempt to connect |
| TcpPromises.ExpiryRepeats | software/uip_hello/uip/uip.c:742-801 | When the timer runs out with something outstanding and tries left, it goes out again under its own number: a SYN, a SYNACK, a FIN, or in ESTABLISHED the bytes in flight, from what the application hands over once more; the next try is due after 3, 6, 12, 24, then 48 ticks |
| TcpPromises.GivingUpIsTold | software/uip_hello/uip/uip.c:743-759 | After the last try the peer is sent a reset and the application is told |
| TcpPromises.OpeningGivesUp | software/uip_hello/uip/uip.c:742-771 | An unanswered opening is given up after exactly 100 ticks by the active and 102 by the passive side |
| TcpPromises.AnswersAreCumulative | software/uip_hello/uip/uip.c:1407-1778 | Data and FIN are answered at once with the number expected next, whether in sequence or not, with exactly the listed exceptions |
| TcpPromises.FinIsAcknowledged | software/uip_hello/uip/uip.c:1724-1788 | In FIN_WAIT_1, CLOSING and LAST_ACK the acknowledgment of the own FIN, and only that, leads on (RFC 793, figure 6) |
| TcpPromises.EveryEndIsTold | software/uip_hello/uip/uip.c:743-759 | The application is told of every end of a connection that it has not brought about itself, except the end of the waiting states |
| TcpPromises.ConnectionIsTold | software/uip_hello/uip/uip.c:1471-1548 | And of the beginning, exactly when its SYN has been acknowledged, by a SYNACK for the active side |
| TcpPromises.ProgressIsTold | software/uip_hello/uip/uip.c:1602-1649 | While connected, of every acknowledgment, and with the data of every segment in sequence |
| TcpPromises.PeersFinIsTold | software/uip_hello/uip/uip.c:1563-1579 | And of the FIN of the peer, exactly when that is taken over |
| TcpPromises.IdleIsPolled | software/uip_hello/uip/uip.c:804-810 | With nothing in flight it is polled with every tick |
| TcpPromises.SizeStaysPositive | software/uip_hello/uip/uip.c:1625-1629 | No step brings the size of a segment to zero while the agreed size is not, or above that |
| TcpPromises.WindowIsSize | software/uip_hello/uip/uip.c:1625-1629 | In ESTABLISHED it is the last window of the peer, as far as that lies within these bounds |
| TcpPromises.SynBecomesDue | software/uip_hello/uip/uip.c:451-463 | A connection as `uip_connect` leaves it sends its SYN with the second tick |
| TcpPromises.RefusalEndsTheSender | software/uip_hello/uip/uip.c:1219-1270 | The reset in answer to a packet that finds no connection is in sequence for the sender of the packet, acknowledges its SYN and ends the connection there; resets are not answered |
| TcpNet.AnswerInv | software/uip_hello/uip/uip.c:1651-1722 | What the application answers, whether it sends, closes or aborts, keeps the correspondence between the connection and the stream it has sent, and the packet is a piece of that stream |
| TcpNet.NextPiece | software/uip_hello/uip/uip.c:1407-1419 | A segment that passes the sequence check is exactly the next piece of the peer's stream; a FIN passes only after all data |
| TcpNet.AckMeans | software/uip_hello/uip/uip.c:1425-1461 | A matching acknowledgment means that the peer has taken over everything that was in flight |
| TcpNet.EstablishedAdvances | software/uip_hello/uip/uip.c:1551-1723 | ESTABLISHED keeps the two-party invariant for data, acknowledgment, FIN and all combinations |
| TcpNet.FinWaitAdvances | software/uip_hello/uip/uip.c:1734-1778 | FIN_WAIT_1 and FIN_WAIT_2 keep it |
| TcpNet.SynSentAdvances | software/uip_hello/uip/uip.c:1490-1548 | SYN_SENT keeps it; after the SYNACK the receiver expects the peer's initial sequence number plus one |
| TcpNet.ReceiveAdvances | software/uip_hello/uip/uip.c:1385-1789 | Any segment that the network can deliver keeps it, in every state |
| TcpNet.TickAdvances | software/uip_hello/uip/uip.c:709-812 | The timer keeps it: what is retransmitted is what was sent |
| TcpNet.RunInv | software/uip_hello/uip/uip.c:684-1882 | The invariant holds in every state of every run of two endpoints over a network that loses, duplicates, delays and reorders |
| TcpNet.DeliveryIsFaithful | software/uip_hello/uip/uip.c:1385-1722 | In every such state, in both directions: delivered data is a prefix of the sent stream, what counts as acknowledged has been taken over (and delivered unless the receiver has closed), rcv_nxt is the peer's initial sequence number plus one plus the bytes received, and a FIN is taken over only after all data (RFC 793, sections 3.3, 3.4 and 3.9) |
| TcpNet.DataGetsThrough | software/uip_hello/uip/uip.c:1471-1542 | Such runs exist: from every initial state up to a full segment of any data can be delivered with the handshake |
| TcpNet.TakenOverIsGivenUnlessClosing | software/uip_hello/uip/uip.c:1734-1778 | Data taken over is given to the application exactly when it has not closed; in FIN_WAIT_1 and FIN_WAIT_2 it is acknowledged but dropped |
| TcpNet.ByteAfterCloseIsDropped | software/uip_hello/uip/uip.c:1734-1761 | A byte that arrives in sequence in FIN_WAIT_1 is acknowledged and not given to the application |
| TcpNet.DuplicateSynAborts | software/uip_hello/uip/uip.c:1407-1419 | A duplicated SYN makes the listener send an ACK that aborts the opening side |
| TcpNet.OpeningIsAborted | software/uip_hello/uip/uip.c:1490-1548 | Among two uIP endpoints a segment ends the opening exactly when it is a reset or not a SYNACK |
| TcpNet.DuplicateSynAbortsRun | software/uip_hello/uip/uip.c:1407-1419 | From every initial state there is a run in which nothing but a duplicated SYN ends the connection |
| TcpStopWait.StopAndWait | software/uip_hello/uip/uip.c:1651-1722 | At any moment of any run the receiver has taken over either nothing or all of what is in flight, which is at most one segment |
| TcpStopWait.SentWhole | software/uip_hello/uip/uip.c:1693-1714 | Every packet with data carries all that is in flight |
| TcpProgress.LostDataIsSentAgain | software/uip_hello/uip/uip.c:787-794 | In every run, when the timer of an endpoint runs out and its application answers, all of its unacknowledged bytes are on the wire again, under their sequence number |
| TcpProgress.InFlightGetsThrough | software/uip_hello/uip/uip.c:684-1882 | From every reachable state in which both sides are connected and have tries left, whatever has been lost, the run can go on so that all that is in flight is delivered and acknowledged: the timer, one packet there and one back suffice |
| TcpConversation.StreamGetsThrough | software/uip_hello/uip/uip.c:1651-1722 | From every such state any further data can be sent and delivered completely |
| TcpConversation.BothSidesClose | software/uip_hello/uip/uip.c:1551-1788 | From every such state with nothing in flight both sides can close, through FIN_WAIT_1, TIME_WAIT and LAST_ACK |
| TcpConversation.WholeConversation | software/uip_hello/uip/uip.c:684-1882 | From every initial state, and for any two streams of data, there is a run in which both are delivered completely and both sides end closed |
| TcpReopen.OldDataEntersExactlyWhen | software/uip_hello/uip/uip.c:1425-1487 | After a listener has opened again for an old SYN, packets of the old incarnation, however many, in any order and with timer ticks in between, can give data to the new one if and only if the peer has sent something and has taken over as much from the old one as the initial sequence number has grown since |
| TcpReopen.OldDataEntersRun | software/uip_hello/uip/uip.c:709-719 | From every initial state there is a run of the network that leaves such packets under way: a SYN and a data packet which, as many calls of the timer later as the listener had sent bytes, open it again and give it the data once more |
| Uip.MatchIsUnique | software/uip_hello/uip/uip.c:1190-1200 | In a table that satisfies the invariant at most one connection matches a segment |
| Uip.DistinctBound | software/uip_hello/uip/uip.c:414-430 | The pigeonhole argument behind the port search |
| Uip.PortsDiffer | software/uip_hello/uip/uip.c:416-420 | Ports tried in succession differ as long as the range 4096 to 31999 has not been used up, across the wrap-around |
| Uip.Stack.Periodic | software/uip_hello/uip/uip.c:709-812 | The timer code refines the transition function for one table entry, leaves all others alone and keeps the table invariant; what is outstanding when the timer has run out goes out again, in ESTABLISHED the bytes in flight |
| Uip.Stack.Found | software/uip_hello/uip/uip.c:1385-1789 | The input code refines the transition function in every state, including the in-place field updates |
| Uip.Stack.AfterAppCall | software/uip_hello/uip/uip.c:1651-1722 | The send path refines its specification, including the branch in which data is already in flight |
| Uip.Stack.Allocate | software/uip_hello/uip/uip.c:432-445 | The first closed entry, else the TIME_WAIT entry with the largest timer, else none: a live connection is never taken |
| Uip.TakenWouldCloseFirst | software/uip_hello/uip/uip.c:439-444 | Of the connections in TIME_WAIT the one taken is the one that would have closed first |
| Uip.Stack.Input | software/uip_hello/uip/uip.c:1189-1382 | Demultiplexing, listening and resets: the segment goes to the one matching entry, opens an entry that may be taken, or is answered with a reset or nothing; no two connections in use ever share ports and address. A new entry answers with a SYNACK numbered with `iss`, and every further segment of the sender finds it |
| Uip.Stack.ChoosePort | software/uip_hello/uip/uip.c:414-430 | At most UIP_CONNS + 1 tries; the result is used by no connection, and every port tried before it is |
| Uip.Stack.Connect | software/uip_hello/uip/uip.c:408-471 | A new connection on an unused port in an entry that may be taken, whose first packet is a SYN numbered with `iss` at the second tick, and which every segment from the remote address and port finds; if there is no entry the table is unchanged |
| WebClient.RequestReads | software/uip_wget/src/webclient.c:178-195 | The request as a text |
| WebClient.DuePieceIsSent | software/uip_wget/src/webclient.c:404-443 | Connecting, an acknowledgment, new data and a retransmission each draw one segment of the request, from the first byte that has not been acknowledged |
| WebClient.WaitingEnds | software/uip_wget/src/webclient.c:413-454 | Without them the client sends nothing, and gives up with the 100th poll in a row |
| WebClient.WebClient.InitConnection | software/uip_wget/src/webclient.c:116-131 | The predicted length is the length of the request |
| WebClient.WebClient.SendData | software/uip_wget/src/webclient.c:178-207 | The answer carries exactly the due piece of the request, although the request is rebuilt in the packet buffer and then moved within it |
| WebClient.WebClient.AckedBytes | software/uip_wget/src/webclient.c:209-221 | Acknowledged bytes are moved from what is left to what is done |
| WebClient.WebClient.AppCall | software/uip_wget/src/webclient.c:401-454 | Every event keeps done plus left equal to the request length, and is answered as specified; a retransmission draws exactly the bytes that are due |
| WebRequest.TickReaction | software/uip_wget/src/webclient.c:428-454 | With the timer of the engine: snd_nxt stays the initial sequence number plus one plus getrequestptr, and what is in flight stays min(getrequestleft, mss) |
| WebRequest.ReceiveReaction | software/uip_wget/src/webclient.c:404-443 | The same for any segment from any peer, as long as the segment size it leaves fits what is in flight; what is sent is the due piece under its own sequence number |
| WebRequest.SizeMustFit | software/uip_wget/src/webclient.c:209-221 | And only then: client and engine agree afterwards if and only if it fits |
| WebPeer.PiecesAreTheRequest | software/uip_wget/src/webclient.c:178-221 | Against any peer, over any sequence of timer ticks and segments that leave the segment size to what is in flight: the pieces sent for the first time are the request from its beginning to the end of what is in flight, and every other packet with data repeats a piece of it under the same sequence number |
| WebPeer.SmallerWindowRepeatsBytes | software/uip_wget/src/webclient.c:209-221 | Every request of 100 bytes or more can be spoilt: after a SYNACK with a segment size of 100, an acknowledgment of the first 100 bytes with a window of 50 draws bytes 50 to 99 again, under the sequence number of byte 100 |
| WebRequest.ClientIsOkay | software/uip_wget/src/webclient.c:438-443 | The client meets what the network theorem asks of an application: it repeats exactly the bytes in flight |
| WebRequest.RequestIsDelivered | software/uip_wget/src/webclient.c:178-221 | Over the lossy network the server is given a beginning of the request, and the whole request once nothing is left |
| Checksum.FoldMod | software/uip_hello/uip/uip.c:282-311 | The 16-bit result is congruent to the sum modulo FFFFh, and zero only for a zero sum (RFC 1071, section 1) |
| Checksum.FoldFold | software/uip_hello/uip/uip.c:341-352 | Sums may be folded at any point, so that the pseudo-header, addresses and data may be summed one after the other (RFC 1071, section 2) |
| Checksum.AddWord | software/uip_hello/uip/uip.c:293-297 | Adding with the wrap-around test is one's complement addition |
| Checksum.Chksum | software/uip_hello/uip/uip.c:282-311 | The loop returns the one's complement sum of the big-endian words, for odd lengths too |
| Checksum.StoredIsAccepted | software/uip_hello/uip/uip.c:327-328 | The stored complement makes the check succeed for every sum, zero included |
| Checksum.StoredNonZeroIsAccepted | software/uip_hello/uip/uip.c:1164-1169 | So does FFFFh in place of a stored zero, and the UDP field is never zero |
| Checksum.Sum32Value | software/uip_hello/uip/uip.c:251-276 | Byte additions with hand-carried overflows are addition modulo 2^32 |
| Checksum.UipAdd32 | software/uip_hello/uip/uip.c:251-276 | The adder computes the sum modulo 2^32 for all operands |
| Packet.PseudoHeader | software/uip_hello/uip/uip.c:343-352 | What is summed is one sequence of bytes: source address, destination address, zero, protocol, the length and the segment (RFC 793, section 3.1) |
| Packet.AcceptedMeans | software/uip_hello/uip/uip.c:840-1187 | What the input checks accept, in bytes |
| Packet.Buffer.UpperLayerChksum | software/uip_hello/uip/uip.c:331-355 | The one's complement sum over pseudo-header, header and data, as one explicit sequence of bytes |
| Packet.Buffer.IpChksum | software/uip_hello/uip/uip.c:321-328 | The one's complement sum over the 20 bytes of the IP header |
| Packet.Buffer.TcpSendNoconn | software/uip_hello/uip/uip.c:1832-1865 | Every TCP packet sent is accepted by the input checks, for any length and content, and its addresses, ports, numbers and data are what was put in; the rest of the IP header is the version, no fragments, a new identification, the given time to live and the protocol |
| Packet.Buffer.UdpSend | software/uip_hello/uip/uip.c:1134-1172 | Every UDP packet sent is accepted, has a non-zero checksum and carries the data; without data nothing is sent |
| Packet.TcpFilledAccepted | software/uip_hello/uip/uip.c:1846-1848 | Filling in the TCP checksum makes the input check succeed |
| Packet.IpFilledAccepted | software/uip_hello/uip/uip.c:1863-1865 | Filling in the IP checksum makes the input check succeed |
| Packet.Buffer.SplitOutput | software/uip_hello/uip/uip-split.c:48-135 | A full-sized TCP packet goes out as two whose payloads concatenate to its payload, the second longer by at most one byte and its sequence number advanced by the length of the first modulo 2^32; both have correct checksums and the other header bytes; any other packet goes out unchanged |
| Packet.SplitParts | software/uip_hello/uip/uip-split.c:88-119 | The second packet is right although it is made from what the first one has left in the buffer |
| Icmp.SwapIsTimes256 | software/uip_hello/uip/uip.c:1001-1004 | Summing byte-swapped words multiplies the sum by 256 modulo FFFFh (RFC 1071, section 2(B)) |
| Icmp.ReplySumCongruent | software/uip_hello/uip/uip.c:999-1005 | The reply has the same sum modulo FFFFh for every checksum value, the threshold included (RFC 1624, section 3) |
| Icmp.ReplyAccepted | software/uip_hello/uip/uip.c:999-1005 | The reply to a message with a correct checksum has a correct checksum if and only if something other than its type and checksum was different from zero |
| Icmp.LonelyChecksum | software/uip_hello/uip/uip.c:1001-1005 | The one checksum value of the exception |
| Icmp.EchoReply | software/uip_hello/uip/uip.c:999-1005 | The in-place code computes the reply |
| Psock.LinesAreTheStream | software/uip_hello/uip/psock.c:111-143 | Splitting a stream at the marker loses nothing |
| Psock.LinesEndAtMarkers | software/uip_hello/uip/psock.c:123-125 | Every line ends at its first marker and the tail has none |
| Psock.TruncatedTwice | software/uip_hello/uip/psock.c:116-126 | Cutting a line to the buffer piece by piece is cutting it once |
| Psock.BlocksAreTheStream | software/uip_hello/uip/psock.c:83-109 | Cutting a stream into blocks loses nothing, and every block has the size of the buffer |
| Psock.LinesComplete | software/uip_hello/uip/psock.c:116-126 | Data that ends at its first marker completes exactly the unfinished line |
| Psock.BlocksAppend | software/uip_hello/uip/psock.c:83-109 | More data completes exactly the unfinished block, or only makes it longer |
| Psock.Socket.NewData | software/uip_hello/uip/psock.c:261-279 | Data at hand is read once; after it has been read the thread blocks until the next event |
| Psock.Socket.BufTo | software/uip_hello/uip/psock.c:111-143 | Reads up to the first marker, keeps what fits, throws the rest away, and reports both |
| Psock.Socket.BufData | software/uip_hello/uip/psock.c:83-109 | Copies as much as fits and reports whether the buffer is full |
| Psock.Socket.ReadTo | software/uip_hello/uip/psock.c:281-306 | One call ends exactly when the pending data holds a marker, with the line cut to the buffer; otherwise it waits with everything taken in; a buffer of length zero never ends a line |
| Psock.Socket.ReadBuf | software/uip_hello/uip/psock.c:308-335 | One call ends exactly when the pending data fills the buffer |
| Psock.Socket.ReadLines | software/uip_hello/uip/psock.c:262-306 | After every event the results are the lines of the whole stream so far, each cut to the size of the buffer, however the stream was cut into segments |
| Psock.Socket.ReadBlocks | software/uip_hello/uip/psock.c:262-335 | After every event the results are the consecutive blocks of the whole stream so far |
| Psock.LinesAreDelivered | software/uip_hello/uip/psock.c:281-306 | At the end of a connection over the lossy network they are the first lines of what the peer has sent |
| Resolv.VisitCounts | software/uip_wget/src/resolv.c:174-204 | Every visit of the timer brings an entry exactly one visit closer to the end, and a query is one query less |
| Resolv.PolledEntries | software/uip_wget/src/resolv.c:172-236 | A poll visits the first active entry and possibly others, and sends at most one query |
| Resolv.PollIsExact | software/uip_wget/src/resolv.c:172-236 | A poll visits every active entry up to the first one that is due for a query, for which it sends, and none after it; the program is told exactly of the entries whose last try has run out on the way |
| Resolv.VisitsExactly | software/uip_wget/src/resolv.c:172-236 | After any number of polls an entry has been visited exactly as often as no entry before it has ended the poll |
| Resolv.SettlesExactlyWhen | software/uip_wget/src/resolv.c:172-236 | So a name that nobody answers settles exactly when that many polls have not been held up before it |
| Resolv.EveryNameSettles | software/uip_wget/src/resolv.c:172-236 | Without new names entry i settles within 30 polls for it and each entry before it, whatever answers arrive in between |
| Resolv.QueriesConserved | software/uip_wget/src/resolv.c:172-236 | Queries sent and queries still to come are what was due at the start; answers only make them fewer |
| Resolv.NewNameFails | software/uip_wget/src/resolv.c:172-236 | A name that nobody answers ends in ERROR after exactly 8 queries |
| Resolv.FirstNameIsExact | software/uip_wget/src/resolv.c:172-236 | The bound on polls is exact for the first entry |
| Resolv.Resolver.CheckEntries | software/uip_wget/src/resolv.c:163-237 | The loop, with its break on a query, visits exactly the active entries up to the first one that is due, sends for that one, and reports exactly the failed entries |
| Resolv.Resolver.NewData | software/uip_wget/src/resolv.c:266-335 | An answer settles only the entry it names, and only while that is being asked for: in error after an error code, else done and with the address in the answer, if there is one; the program is told the address, or that there is none |
| Resolv.OldestIsReplaced | software/uip_wget/src/resolv.c:374-398 | For every table that can be reached: the entry given up is the oldest one if and only if the number of the query is in the given list, which depends only on when the table was initialized; when initialized at the start, these are queries 0, 2 to 255 and 510 |
| Resolv.OthersStarve | software/uip_wget/src/resolv.c:374-398 | From query 769 on entry 0 is the only one that is taken, and what the other three hold stays for ever |
| Resolv.NewestIsReplaced | software/uip_wget/src/resolv.c:374-398 | Right after initialization, and after the counter has come around, it is the newest entry that goes |
| Resolv.SlotIsUnique | software/uip_wget/src/resolv.c:374-390 | The search for an entry has one answer only |
| Resolv.Resolver.Init | software/uip_wget/src/resolv.c:469-478 | Initialization marks all entries as done and changes nothing else |
| Resolv.Resolver.Query | software/uip_wget/src/resolv.c:367-400 | A new name takes the first unused entry, else the first one of the greatest age by the 8-bit counter, else entry 0; no other entry changes, and the table stays one of those that can be reached |

## Left out

- Printing, FCB name conversion and the BIOS and DOS calls behind page selection: input and output. Page selection is two fields, reading the file a method that delivers all that is left, a full buffer or an error.
- Flash operations that take no time, and short reads in the middle of a file.
- FlashLoader.Loader.FcbRead: a read that returns fewer bytes than are left is not modelled, because the DOS call returns full records up to the end of the file.
- IP input other than its checks (own address, broadcast, UDP demultiplexing), ARP, DHCP, IPv6, fragments and the link-level header.
- Urgent data, `uip_stop`/`uip_restart`, poll requests (`UIP_POLL_REQUEST`), and parsing the MSS option: the parsed option is part of the segment.
- The round-trip estimator: the new `rto` is any byte.
- TcpNet.DeliveryIsFaithful: assumes one incarnation of a connection, fewer than 2^32 - 16 bytes in each direction, and applications that repeat the bytes in flight and call `uip_close` only with nothing in flight. Beyond that many bytes old and new sequence numbers cannot be told apart; across incarnations old data can be delivered, and `TcpReopen.OldDataEntersExactlyWhen` says when.
- TcpNet.RunInv: a listener whose connection has closed answers a later SYN with a reset, where the code opens a second connection.
- The response parser of the HTTP client, redirects and the upcalls to its user: the parser's verdict is an input. `webclient_get` is reduced to `uip_connect` and `init_connection`.
- `uip_listen` and `uip_unlisten` (plain table updates). A zero port matches unused listen entries, as in the code.
- `psock_send` and `psock_generator_send`, and threads that mix reading with sending.
- The format of DNS queries and answers, and looking up names: the error code and the first address record of an answer are inputs.
- Byte order of ports and addresses (`HTONS`) other than in checksums: they are compared and copied only.
