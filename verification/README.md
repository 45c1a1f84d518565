# Verified models of irda-utils

Dafny models of the stateful parts of irda-utils 0.9.18, with proofs of what they keep over whole runs.
`dafny verify dfyconfig.toml` checks the project.

| module | models | file |
|---|---|---|
| `NetBuffer` | the packet buffer | `irdadump/netbuf.c` |
| `Obex` | the OBEX header dissector, on the packet buffer | `irdadump/obex.c` |
| `IrLmp`, `IrLmpRuns` | the IrLMP dissector, its connection table, and runs of frames | `irdadump/irlmp.c`, `irdadump/irlap.c` |
| `Capture` | the capture log writer and reader | `irdadump/capture.c` |
| `IrCardChip`, `IrCardEvents`, `IrCard` | the FIR driver: banked registers, transmit queue, interrupt loop, speed changes | `pcmcia/ircard_cs.h`, `pcmcia/ircard_cs.c` |
| `DevList` | its list of instances | `pcmcia/ircard_cs.c` |
| `PsionHeader`, `PsionTransfer` | the file transfer to and from a Psion | `psion/irpsion5.c` |
| `IrKbd`, `IrKbdRuns` | the keyboard and mouse driver | `tekram/irkbd.c` |

Objects the C code updates in place are classes here, and each of their methods is proved against a
function of the old state; the lemmas then prove what those functions keep, undo or refine. Protocols
with two sides are state machines whose steps may interleave in any way. Bytes are integers from 0 to
255, and bit masks are written as divisions and remainders. What the FIR device answers to the driver's
reads is an arbitrary sequence of bytes.

Where the code does not do what its comments say, the model follows the code:

- The last IAS query starts out with LSAP 0, not `LSAP_ANY` (`irdadump/irlap.c:791-796`). A connect to
  the IAS before any query therefore takes a slot of the connection table
  (`IrLmpRuns.ConnectToIasTakesASlot`); a classification has a query and an answer behind it exactly
  when the connect is accepted and some query came first (`IrLmpRuns.JustifiedExactly`).
- `find_connection` does not look at `valid`, so entries of closed connections are found too. It finds
  the live entry, whatever is cached, exactly when no other slot holds the same key
  (`IrLmpRuns.LookupFindsExactly`); a key that connects twice can be missed
  (`IrLmpRuns.ReconnectCanBeMissed`).
- An OBEX header that declares a length below 3 wraps to a step of more than 64 KiB, and the one-byte
  class prints the identifier instead of the byte it carries.
- A capture record that declares an original length of 15 is taken although the read of its data fails:
  the -1 of the failed read equals the length less the cooked header (`Capture.ReaderByBytes`).
- `ircard_receive` runs its two RESET writes under the caller's bank, which is 2 for a change to a fast
  speed; `ircard_receive_complete` leaves bank 1 selected when the interrupt loop reads the next cause.
  Nothing goes astray in an interrupt exactly when no receive before the twelfth cause ends without an
  overrun (`IrCardEvents.NothingStraysExactly`).
- The cause read under bank 1 is another register, the frame address, and may look like a completed
  transmission. The transmit queue survives an interrupt exactly when no more completions are serviced
  than frames are queued (`IrCard.Driver.Interrupt`); with a device that reports completions only while
  it sends, that is exactly when no stray answer passes for one on an empty queue
  (`IrCardEvents.OnlyStrayAnswersBreak`), and `IrCard.StrayReadBreaksQueue` is a run in which one does.
- A detach that was postponed is not made up for by the release (`DevList.Driver.DetachThenRelease`),
  and unloading never ends while a configured instance is open (`DevList.CleanupEndsExactly`).
- The keyboard driver sets its keyboard phase and at once overwrites it, so the keyboard is never
  initialised, and after a failed receive it handles the previous frame once more. Over a run of receives
  every byte is delivered once exactly when every failed one finds a frame without mouse or keyboard bytes
  (`IrKbdRuns.ReceiveAll`).
- The transceiver's mode follows the speed only for speeds outside (1152000, 4000000)
  (`IrCard.ModeTracksExactly`).

Assumptions about the surroundings: the speed is changed with an empty queue; between two resets of the
queue there are never more frames than slots, nor more bytes than the transmit region holds
(`IrCard.WindowAlwaysFits` derives this from a window of seven frames of at most 2050 bytes); the chip reads
a transmission from the address the two address registers spell, with the paging bit as bit 14; the
transceiver takes its mode from TXD_FRC, held while XCVROFF goes off; the chip sends only with its
transmitter enabled and a DMA channel for sending; the Psion header arrives in one read.

## Model

| member | source | states |
|---|---|---|
| NetBuffer.NetBuf.Run | irda-utils-0.9.18/irdadump/netbuf.c:47-285 | After any run of the operations the live bytes are those of a plain byte sequence after the same run, and headroom and size are as predicted; head <= data <= tail == data + len <= end holds throughout |
| NetBuffer.RunRefinesPlain | irda-utils-0.9.18/irdadump/netbuf.c:144-285 | The layout with its reallocations and the plain sequence agree on the live bytes after every run |
| NetBuffer.RunKeepsFit | irda-utils-0.9.18/irdadump/netbuf.c:94-249 | The live bytes with the room before them fit the buffer after every run |
| NetBuffer.PrependThenPullBack | irda-utils-0.9.18/irdadump/netbuf.c:183-237 | Prepending any number of headers and pulling them off in reverse restores the payload |
| NetBuffer.AppendThenTrim | irda-utils-0.9.18/irdadump/netbuf.c:144-285 | Blocks put one after the other stand behind the payload in order, and trimming to its length takes them off again |
| NetBuffer.ReservedRoomSuffices | irda-utils-0.9.18/irdadump/netbuf.c:183-249 | Prepending headers leaves the size unchanged exactly when the room before the data covers their total length, and then uses up exactly that much |
| NetBuffer.NetBuf.Realloc | irda-utils-0.9.18/irdadump/netbuf.c:94-121 | Keeps the bytes and offsets; the buffer stays valid exactly when the new size covers the data |
| NetBuffer.NetBuf.Push | irda-utils-0.9.18/irdadump/netbuf.c:183-203 | The old live bytes follow the opened space, also through the reallocation and the overlapping move |
| NetBuffer.NetBuf.Reserve | irda-utils-0.9.18/irdadump/netbuf.c:245-249 | Shifts the window unchecked: valid afterwards exactly when there was room behind the data |
| Obex.UnicodeToChar | irda-utils-0.9.18/irdadump/obex.c:39-46 | In place equals out of place: the result is the original bytes at 2n+1 up to the first zero one, and the rest of the array is untouched |
| Obex.ParseHeader | irda-utils-0.9.18/irdadump/obex.c:54-107 | What is printed and how far it steps, for bytes cut anywhere; the step is at least 2 and stays within the packet exactly for a whole header; the switch never reaches its default |
| Obex.StepOfDeclaredLength | irda-utils-0.9.18/irdadump/obex.c:66-81 | 16-bit wrap-around: a declared length below 3 steps 65536 more than it says, any other exactly what it says |
| Obex.ParseHeaders | irda-utils-0.9.18/irdadump/obex.c:115-180 | Final bit and length of the packet; the loop ends on every packet, prints a function of the live bytes alone, and empties the buffer exactly when it does not report an unterminated header |
| Obex.ByteStreamPrints | irda-utils-0.9.18/irdadump/obex.c:75-89 | By identifier: 0x42 Type and 0x46 Target print their text, 0x48 body, 0x49 body-end and every other byte stream their size |
| Obex.UnicodePrints | irda-utils-0.9.18/irdadump/obex.c:64-74 | By identifier: 0x01 and 0x31 Name, 0x05 Description, any other custom, with the text that was put into the two-byte characters |
| Obex.BytePrints | irda-utils-0.9.18/irdadump/obex.c:90-94 | A one-byte header prints its identifier |
| Obex.IntPrints | irda-utils-0.9.18/irdadump/obex.c:95-101 | A four-byte header prints its bytes as a signed number, most significant first; 0xc3 is Length |
| Obex.RoundTrip | irda-utils-0.9.18/irdadump/obex.c:115-180 | Dissecting the encoding of any list of well-formed headers prints exactly those headers |
| Obex.Truncation | irda-utils-0.9.18/irdadump/obex.c:136-179 | Cut at any byte, the headers wholly inside are printed as before, and the cut is reported exactly when it is no header boundary |
| Obex.InsideIsExact | irda-utils-0.9.18/irdadump/obex.c:136-179 | The number of headers said to lie inside a prefix is the largest that fits |
| Obex.AcceptsExactlyEncodings | irda-utils-0.9.18/irdadump/obex.c:115-180 | Below 64 KiB the dissector reaches the end without complaint on exactly the encodings of header lists |
| Obex.ZeroLengthSwallowsAll | irda-utils-0.9.18/irdadump/obex.c:79-81 | The bound is needed: a header declaring length 0 takes 64 KiB without complaint and is no encoding |
| IrLmp.Dissector.FindConnection | irda-utils-0.9.18/irdadump/irlmp.c:406-411 | The cached slot if its key matches, else the first slot with the key, valid or not; the answer is cached |
| IrLmp.Dissector.ParseIriapCommand | irda-utils-0.9.18/irdadump/irlmp.c:50-106 | A query by class records the flags its names ask for and forgets the LSAP; other commands change nothing |
| IrLmpRuns.QueryByBytes | irda-utils-0.9.18/irdadump/irlmp.c:63-101 | Which frames are queries, and that a flag is set exactly when its name, OBEX, IrCOMM or IrLPT, IrNet, stands in the class, and TinyTP in the attribute |
| IrLmpRuns.QueryByNames | irda-utils-0.9.18/irdadump/irlmp.c:63-101 | The same for a frame made from any class and attribute without NUL of at most 255 bytes |
| IrLmpRuns.AnswerByBytes | irda-utils-0.9.18/irdadump/irlmp.c:132-144 | A frame names an LSAP exactly when it comes from LSAP 0, reports success and holds an integer, and it names the last byte of that |
| IrLmpRuns.ControlByBytes | irda-utils-0.9.18/irdadump/irlmp.c:315-333 | Operation, LSAPs and key of every other frame by its bytes |
| IrLmpRuns.LayersByFlag | irda-utils-0.9.18/irdadump/irlmp.c:350-424 | Which sub-dissector follows from which flag |
| IrLmpRuns.ConnectOpens | irda-utils-0.9.18/irdadump/irlmp.c:335-353 | An accepted connect fills a free slot with key, address and flags and changes nothing else |
| IrLmpRuns.DisconnectCloses | irda-utils-0.9.18/irdadump/irlmp.c:384-394 | A disconnect closes the entry the lookup finds and no other |
| IrLmpRuns.UnknownTraffic | irda-utils-0.9.18/irdadump/irlmp.c:358-430 | Unknown connections are taken for TinyTP only where the setting says so, and never on LSAP 0 |
| IrLmp.Dissector.StrStr | irda-utils-0.9.18/irdadump/irlmp.c:79-101 | Finds a name exactly when it stands somewhere in the string |
| IrLmp.Dissector.ParseIrlmp | irda-utils-0.9.18/irdadump/irlmp.c:306-431 | One frame of any bytes: the new query record, table and cache, and the sub-dissectors it is handed to |
| IrLmpRuns.Provenance | irda-utils-0.9.18/irdadump/irlmp.c:333-353 | After any run every valid connection goes back to a CONNECT_CMD with its key; if a query came before it, its flags are those of the latest one and an integer answer behind that named the LSAP |
| IrLmpRuns.NamedFromLsapAny | irda-utils-0.9.18/irdadump/irlmp.c:84-85 | Started from LSAP_ANY every valid connection was named by an integer answer |
| IrLmpRuns.JustifiedExactly | irda-utils-0.9.18/irdadump/irlmp.c:137-144 | A connect is classified by the latest query and its answer exactly when it is accepted and some query came before |
| IrLmpRuns.ConnectToIasTakesASlot | irda-utils-0.9.18/irdadump/irlmp.c:333-349 | From the actual start a connect to LSAP 0 with nothing asked takes a slot; from LSAP_ANY it would not |
| IrLmpRuns.FailedQueryClassifiesNothing | irda-utils-0.9.18/irdadump/irlmp.c:84-85 | After a query without an integer answer no connect changes anything |
| IrLmpRuns.DissectedAsObex | irda-utils-0.9.18/irdadump/irlmp.c:406-424 | A frame is dissected as OBEX only on a connection whose latest query before the connect asked for OBEX and whose LSAP was then answered |
| IrLmpRuns.ObexWasAskedFor | irda-utils-0.9.18/irdadump/irlmp.c:84-424 | Over runs of frames of any bytes: the frame of that query names a class with OBEX in it |
| IrLmpRuns.KeyIsDirectionFree | irda-utils-0.9.18/irdadump/irlmp.c:343-349 | Frames of the two directions between two LSAPs, connects included, use the same key |
| IrLmpRuns.RunLeavesOthers | irda-utils-0.9.18/irdadump/irlmp.c:384-394 | Runs of frames with other keys, and losses of other links, leave a valid entry exactly as it is, whatever the table and the cache hold |
| IrLmpRuns.LookupFindsExactly | irda-utils-0.9.18/irdadump/irlmp.c:406-424 | A lookup answers a slot for every state of the cache exactly when no other slot holds its key |
| IrLmpRuns.LiveConnectionIsFound | irda-utils-0.9.18/irdadump/irlmp.c:406-411 | In runs with one connect per key the frames of a live connection always find its entry |
| IrLmpRuns.ReconnectCanBeMissed | irda-utils-0.9.18/irdadump/irlmp.c:384-411 | A run with a second connect for a key whose frames find a dead entry instead of the live one |
| Capture.LogFile.CapwriteDump | irda-utils-0.9.18/irdadump/capture.c:213-239 | Appends exactly the record header, the cooked header and the data |
| Capture.LogFile.CapreadCheck | irda-utils-0.9.18/irdadump/capture.c:276-293 | Accepts exactly the headers with this magic, version and network, and moves behind them |
| Capture.LogFile.CapreadGet | irda-utils-0.9.18/irdadump/capture.c:301-329 | The record at the position, or -1, for any bytes |
| Capture.FileHeaderBytes | irda-utils-0.9.18/irdadump/capture.c:108-116 | The 24 bytes of the file header |
| Capture.HeaderAcceptedByBytes | irda-utils-0.9.18/irdadump/capture.c:276-293 | Accepted are exactly the files with these bytes at 0 to 8 and 20 to 24 |
| Capture.RecordLayout | irda-utils-0.9.18/irdadump/capture.c:222-225 | Seconds, microseconds and the two lengths at their offsets, least significant byte first |
| Capture.ReaderByBytes | irda-utils-0.9.18/irdadump/capture.c:301-329 | Every field of what the reader returns for any bytes, and that it returns a record exactly when the original length is at least 16 and the bytes are there, or when it is 15 |
| Capture.SllLayout | irda-utils-0.9.18/irdadump/capture.c:168-205 | Types and address length in network order at their offsets, the protocol as it came |
| Capture.LogRoundTrip | irda-utils-0.9.18/irdadump/capture.c:213-329 | Reading what was written returns every length, direction, protocol, time modulo 2^32 and data, in order |
| Capture.Truncation | irda-utils-0.9.18/irdadump/capture.c:301-329 | A log cut at any byte gives exactly the records wholly inside and then -1 |
| Capture.InsideIsExact | irda-utils-0.9.18/irdadump/capture.c:301-329 | The number of records said to lie inside a prefix is the largest that fits |
| Capture.WriteCutRead | irda-utils-0.9.18/irdadump/capture.c:154-329 | Writer, any cut behind the file header, and reader together: the header is accepted and the whole records come back |
| IrCardChip.AddressSurvivesExactly | irda-utils-0.9.18/pcmcia/ircard_cs.c:892-895 | The two address bytes spell the address exactly for addresses in [0x4000, 0x8000) |
| IrCardChip.CountSurvivesExactly | irda-utils-0.9.18/pcmcia/ircard_cs.c:882-886 | The two count bytes spell the length exactly for lengths below 8192 |
| IrCardChip.Chip.SwitchBank | irda-utils-0.9.18/pcmcia/ircard_cs.h:216-230 | Changes the bank bits of MCR alone and answers the bank selected before |
| IrCard.LaidGrows | irda-utils-0.9.18/pcmcia/ircard_cs.c:806-816 | Copying a frame behind the last one leaves every earlier frame of the turn where it was |
| IrCard.SlotsDisjoint | irda-utils-0.9.18/pcmcia/ircard_cs.c:806-809 | The slots of a turn are disjoint and in the order of their frames |
| IrCard.Driver.HardXmit | irda-utils-0.9.18/pcmcia/ircard_cs.c:786-854 | Takes the frame behind those pending and keeps the queue invariant: what is on the air is what was taken, in order, and every slot still holds its frame; a busy driver refuses |
| IrCard.Driver.DmaWrite | irda-utils-0.9.18/pcmcia/ircard_cs.c:862-907 | The bytes the chip sends for the loaded registers are the frame at ptr, or with nothing queued some bytes; the transmitter is on and has its DMA channel, without which the chip sends nothing; every access hits its bank; MCR ends in bank 0 |
| IrCard.Driver.XmitComplete | irda-utils-0.9.18/pcmcia/ircard_cs.c:915-982 | The first pending frame is done and the next is sent from intact memory; MCR at the end; exactly which accesses go astray when entered under another bank; with nothing queued the length goes below 0 and a transmission starts all the same |
| IrCardEvents.AfterPolling | irda-utils-0.9.18/pcmcia/ircard_cs.c:935-942 | The polling stops behind the first answer with the end of the message, or else after 1002 reads |
| IrCard.Driver.AwaitEom | irda-utils-0.9.18/pcmcia/ircard_cs.c:929-942 | Reads exactly the answers up to there, one of them for an underrun, and never more than 1002 |
| IrCard.Driver.Receive | irda-utils-0.9.18/pcmcia/ircard_cs.c:991-1028 | Starts a new turn with an empty queue and ends in bank 0 with a receiver that is enabled, has its DMA channel and checks frames; the two reset commands arrive exactly when it was entered under bank 0 |
| IrCard.Driver.Interrupt | irda-utils-0.9.18/pcmcia/ircard_cs.c:1146-1209 | For any answers of device and stack: the causes serviced are those the answers spell, the caller's bank comes back, the stray accesses are known one by one and there are none exactly when the banks are kept, and the queue invariant survives exactly when no more completions are serviced than frames were queued |
| IrCardEvents.Causes | irda-utils-0.9.18/pcmcia/ircard_cs.c:1174-1202 | The causes an answer sequence spells, at most twelve |
| IrCardEvents.CausesByNumber | irda-utils-0.9.18/pcmcia/ircard_cs.c:1177-1197 | 0x0e is a completion, 0x08 and 0x0a are receives, every other cause is passed over |
| IrCardEvents.IdMask | irda-utils-0.9.18/pcmcia/ircard_cs.c:1172 | The cause is the status masked with 0x0e |
| IrCardEvents.RxStatBits | irda-utils-0.9.18/pcmcia/ircard_cs.c:1055-1093 | An overrun is bit 0x20 without 0x80 and 0x40, in a ring that is not empty |
| IrCardEvents.NothingStraysExactly | irda-utils-0.9.18/pcmcia/ircard_cs.c:1036-1202 | Entered under bank 0 no access goes astray exactly when no receive before the twelfth cause ends without an overrun |
| IrCardEvents.OnlyStrayAnswersBreak | irda-utils-0.9.18/pcmcia/ircard_cs.c:915-966 | If completions are reported under bank 0 only while something is sent, there are more of them than frames exactly when one is read under another bank with nothing queued |
| IrCardEvents.KeptBanksKeepQueue | irda-utils-0.9.18/pcmcia/ircard_cs.c:915-1202 | With such a device and the banks kept there are never more completions than frames |
| IrCardEvents.ReceiveMakesReadStray | irda-utils-0.9.18/pcmcia/ircard_cs.c:1048-1202 | A receive that finds nothing in the ring is enough for the next status read to go astray |
| IrCard.StrayReadBreaksQueue | irda-utils-0.9.18/pcmcia/ircard_cs.c:959-1202 | A run from power-up with such a device that ends with a queue of length -1 |
| IrCard.Driver.ReceiveComplete | irda-utils-0.9.18/pcmcia/ircard_cs.c:1036-1093 | Goes back to bank 0 exactly when the ring pointer it reads is not 0 and the status there has overrun without abort and frame error, and otherwise leaves bank 1 |
| IrCard.Driver.ChangeSpeed | irda-utils-0.9.18/pcmcia/ircard_cs.c:701-778 | The modulation bits by speed, transceiver mode and transmit handler; above 115200 a new turn able to receive, with the two reset commands gone astray |
| IrCard.ModeTracksExactly | irda-utils-0.9.18/pcmcia/ircard_cs.c:718-722 | A change keeps the transceiver in the mode of the speed unless it goes from above 1152000 into the gap below 4000000 |
| IrCard.ModeTracksRun | irda-utils-0.9.18/pcmcia/ircard_cs.c:718-725 | Over any run of speeds outside the gap the transceiver is in FIR mode exactly at 4000000 and above |
| IrCard.Driver.Serve | irda-utils-0.9.18/pcmcia/ircard_cs.c:786-982 | Over any interleaving of enqueues and completions all frames are taken and the frames on the air are, byte for byte and in order, the first of them; all of them once completed |
| IrCard.WindowAlwaysFits | irda-utils-0.9.18/pcmcia/ircard_cs.h:153-172 | With windows of seven frames of at most 2050 bytes every frame of every run has a slot and room |
| IrCard.SevenFullFramesFit | irda-utils-0.9.18/pcmcia/ircard_cs.h:155-156 | Of full frames exactly seven fit, one less than there are slots |
| DevList.Driver.Attach | irda-utils-0.9.18/pcmcia/ircard_cs.c:119-182 | Puts the new link in front; a failed registration leaves the list as it was |
| DevList.Driver.Detach | irda-utils-0.9.18/pcmcia/ircard_cs.c:193-240 | Removes exactly that link and keeps the order of the others; a configured one stays and is marked |
| DevList.Driver.DetachThenRelease | irda-utils-0.9.18/pcmcia/ircard_cs.c:210-223 | The release does not perform the postponed detach |
| DevList.Driver.CleanupModule | irda-utils-0.9.18/pcmcia/ircard_cs.c:1357-1367 | Ends with an empty list when no configured instance is open |
| DevList.CleanupEndsExactly | irda-utils-0.9.18/pcmcia/ircard_cs.c:1362-1366 | The loop ends exactly when no instance is both configured and open |
| PsionHeader.HeaderRoundTrip | irda-utils-0.9.18/psion/irpsion5.c:260-454 | Scanning the printed line gives back the size and time modulo 2^32 and the mode; the name exactly when it does not start with white space |
| PsionHeader.ScanOfPrint | irda-utils-0.9.18/psion/irpsion5.c:264-452 | Every field of the scanned line in terms of what was printed |
| PsionHeader.ScanInOrder | irda-utils-0.9.18/psion/irpsion5.c:441-452 | Four printed numbers and a name are read in that order |
| PsionHeader.LinePrinted | irda-utils-0.9.18/psion/irpsion5.c:260-269 | The line as it goes out, with sizes from 2^31 on negative |
| PsionHeader.SampleTime | irda-utils-0.9.18/psion/irpsion5.c:417-454 | The date words of the sample header are 12 April 1999, 20:47:56, in both directions |
| PsionHeader.DateFits | irda-utils-0.9.18/psion/irpsion5.c:260-268 | The date fits 64 bits and its high word 32 |
| PsionHeader.TimeSurvives | irda-utils-0.9.18/psion/irpsion5.c:453-454 | The two words give the time back modulo 2^32 in the receiver's 64-bit arithmetic |
| PsionTransfer.SendData | irda-utils-0.9.18/psion/irpsion5.c:302-338 | The writes together are the rest of the file, in full buffers but for the last |
| PsionTransfer.ReceiveData | irda-utils-0.9.18/psion/irpsion5.c:497-533 | Takes exactly as many reads as it needs, none of them empty, and succeeds exactly when some number of reads before the first empty one is enough |
| PsionTransfer.AnyChunkingRebuilds | irda-utils-0.9.18/psion/irpsion5.c:499-516 | However a file is cut into reads, the count is reached with the last one, and the file is rebuilt |
| PsionTransfer.TransferIsSafe | irda-utils-0.9.18/psion/irpsion5.c:270-516 | Over every interleaving and chunking: received, in flight, being written and unread are the file, no data enters the link before the acknowledgement is read, and a sender that is done leaves the whole file received |
| PsionTransfer.RunsAreBounded | irda-utils-0.9.18/psion/irpsion5.c:278-563 | No run is longer than the measure of its start, so every run ends |
| PsionTransfer.SomeStepEnabled | irda-utils-0.9.18/psion/irpsion5.c:278-563 | Every state that is not final has a step |
| PsionTransfer.StuckRunsAreFinal | irda-utils-0.9.18/psion/irpsion5.c:278-563 | A run that cannot go on has ended on both sides, with the whole file received or, when the sender gave up, nothing |
| PsionTransfer.GivesUpExactly | irda-utils-0.9.18/psion/irpsion5.c:278-299 | The sender gives up exactly when it reads the acknowledgement in part |
| PsionTransfer.EveryTransferCompletes | irda-utils-0.9.18/psion/irpsion5.c:278-563 | With the acknowledgement in one read every run that cannot go on has both sides closed and the file received, empty files included |
| IrKbd.Keyboard.Decode | irda-utils-0.9.18/tekram/irkbd.c:332-373 | The 8-bit loop over any buffer: position plus count stays the same modulo 256, and what it dispatches takes effect in order |
| IrKbd.Keyboard.HandleResponse | irda-utils-0.9.18/tekram/irkbd.c:252-291 | Phase, timer and idle count for each response, by its number |
| IrKbd.Keyboard.DataIndication | irda-utils-0.9.18/tekram/irkbd.c:318-374 | What came in overwrites the front of the buffer, which is then decoded; a failed receive disconnects and decodes the buffer as it is |
| IrKbd.Keyboard.WatchdogTimerExpired | irda-utils-0.9.18/tekram/irkbd.c:396-421 | Command, phase and timer for each phase |
| IrKbd.SubframesByFirstByte | irda-utils-0.9.18/tekram/irkbd.c:334-367 | What a subframe dispatches by the range of its first byte |
| IrKbdRuns.HeadsAgree | irda-utils-0.9.18/tekram/irkbd.c:332-373 | On any bytes position plus count is the same modulo 256 at every turn of the loop |
| IrKbdRuns.WellFormedFrame | irda-utils-0.9.18/tekram/irkbd.c:332-373 | A well-formed frame is decoded to its end and not a byte further, whatever lies behind it |
| IrKbdRuns.EndsAtFrameEndExactly | irda-utils-0.9.18/tekram/irkbd.c:332-373 | The loop ends where the frame says exactly when the declared bytes are whole subframes |
| IrKbdRuns.FrameIsDelivered | irda-utils-0.9.18/tekram/irkbd.c:341-362 | Every mouse and key byte of a well-formed frame is delivered once and in order |
| IrKbdRuns.PowerSaveCounts | irda-utils-0.9.18/tekram/irkbd.c:255-360 | Handling a frame keeps the power-save counter the number of idle replies since the last mouse or keyboard subframe |
| IrKbdRuns.PowerSaveOverRuns | irda-utils-0.9.18/tekram/irkbd.c:252-441 | And so does every run from power-up, with its connections, losses and timer steps |
| IrKbdRuns.SlowRateExactly | irda-utils-0.9.18/tekram/irkbd.c:255-260 | The slow rate is set exactly from the 102nd idle reply in a row on |
| IrKbdRuns.SlowRateOverRuns | irda-utils-0.9.18/tekram/irkbd.c:252-441 | In any run from power-up a frame that ends in an idle reply sets the slow rate exactly when that is at least the 102nd since the last activity |
| IrKbdRuns.ArmedExactly | irda-utils-0.9.18/tekram/irkbd.c:252-367 | A frame leaves a stopped timer running exactly when something in it starts it |
| IrKbdRuns.PollingNeverStalls | irda-utils-0.9.18/tekram/irkbd.c:396-441 | Through any connections and losses, with a peer that answers in kind, a connected driver has a timer running or a command out, and the keyboard is never initialised |
| IrKbdRuns.PollsExactly | irda-utils-0.9.18/tekram/irkbd.c:252-441 | After any run from power-up the phase is Ready or Polling exactly when a mouse reply has come since the last connection with no keyboard reply after it |
| IrKbdRuns.EnableSentExactly | irda-utils-0.9.18/tekram/irkbd.c:396-421 | The command to report is sent by the timer in exactly those states, and by nothing else |
| IrKbdRuns.MouseReplyStartsPolling | irda-utils-0.9.18/tekram/irkbd.c:272-417 | A command answered with a mouse reply, and no keyboard reply behind it, leads to polling the next time the timer fires, and it is running |
| IrKbdRuns.FirstConnectionPolls | irda-utils-0.9.18/tekram/irkbd.c:396-441 | The shortest run from power-up to polling |
| IrKbdRuns.FrameThenLoss | irda-utils-0.9.18/tekram/irkbd.c:327-333 | After a frame and a failed receive the frame has taken effect twice |
| IrKbdRuns.ReceiveAll | irda-utils-0.9.18/tekram/irkbd.c:318-374 | Over any run of receives the mouse and key bytes of the received frames are delivered once and in order, and nothing else is, exactly when every failed receive finds a buffer whose frame has none |
| IrKbdRuns.OnceIsPayloads | irda-utils-0.9.18/tekram/irkbd.c:334-367 | For well-formed frames those bytes are their mouse and keyboard payloads |

## Left out

- NetBuffer.NetBuf.Put: does not model failing allocations, which leave `tail` and `len` advanced, nor the wrap of the 32-bit sizes.
- NetBuffer.NetBuf.Realloc: asks for a size above 0, since the C library may release the buffer for 0.
- Obex.ParseHeader: text taken from bytes behind the packet or behind an unterminated string is recorded as stray, and the 255-byte scratch string is unbounded.
- The dispatch on OBEX opcodes and the OBEX connect frames: tables.
- IrLmp.Dissector.ParseIrlmp: records which sub-dissectors a frame is handed to, not their text, and asks for a readable buffer of 515 bytes behind the frame's start, which the 2050-byte capture buffer has.
- IrLmpRuns.LiveConnectionIsFound: needs one connect per key; the exact condition for one lookup is IrLmpRuns.LookupFindsExactly.
- IrLAP frames other than the disconnect, and the IrCOMM parameters. The table's lookup, its search for a free slot, its clearing at a disconnect and its start are modelled as `irdadump/irlap.c` has them (lines 51-102 and 791-796).
- Capture.Packet: at most 2^31 - 17 bytes of data; the record is returned as a sequence, so the size of the frame buffer is not modelled; words are in little-endian order; opening, closing and failing writes are left out.
- IrCard.Driver.HardXmit: demands a free slot and room in the region, which the code does not check; the turnaround delay is left out.
- IrCard.Driver.XmitComplete: with nothing queued it says that a transmission starts, not which bytes go out; statistics are left out.
- IrCard.Driver.Receive: demands an empty queue; the code also drops queued frames here.
- IrCard.Driver.ReceiveComplete: follows the registers and the status byte; the copy of the received frame out of the ring is left out.
- IrCard.Driver.ChangeSpeed: demands an empty queue; the SIR port library is left out.
- Card configuration, power management and card events: bookkeeping of Card Services, which is not part of this model.
- DevList.Driver.Detach: freeing memory and closing the device are left out.
- PsionHeader.Scan: covers the file header; the other kind of header, `DATA`, which the sender never produces, counts as no file. Names are C strings, without NUL.
- PsionTransfer.TransferIsSafe: the header goes out in one write and arrives in one read; sizes are below 2^31; the file does not change while it is sent; local file errors are left out.
- IrKbd.Keyboard.Decode: stops at a subframe that runs past the 4096-byte buffer, where the code reads on.
- IrKbdRuns.PollingNeverStalls: start-up is one step, so signals in the middle of it are not modelled; the idle counter is unbounded.
- Sockets, discovery, console and fifo writes, forks and printing in the remaining programs: input and output without state of their own.
- findchip and smcinit: single bytes decoded against small tables.
