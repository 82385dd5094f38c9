# A verified model of the AMPM GSM/GPS board libraries

This project models the libraries in `firmware/ampm_lib` of an mbed firmware for a GSM/GPS board, and proves what they are
for. The frames on its serial lines come back as they were sent, and damaged ones are dropped. The ring buffer between
interrupt and task is a queue. The file system on a serial flash keeps files apart and gives back what was written. The
calendar functions are inverses. The modem's command engine comes to rest. Beside these stand the linked lists, the text
conversion and the sentence scanner.

`dafny verify dfyconfig.toml` checks the whole project.

| file | models |
|---|---|
| `Words.dfy` | octets and 16-bit words, exclusive or on natural numbers |
| `FcsTable.dfy`, `Fcs.dfy`, `FcsDetection.dfy` | `fcs.c`: table, frame check sequence, the errors it detects |
| `Protocol.dfy` | `protocol.c`: encoder and parser of byte-stuffed frames |
| `RingBuffer.dfy`, `RingInterrupt.dfy` | `ringbuf.c`, call by call, and with Put in an interrupt |
| `PacketQueue.dfy` | `packet_queue.c`: framed packets through the ring |
| `Exchange.dfy` | encoders and parsers joined: what is sent is what is delivered |
| `AmpmFile.dfy`, `AmpmWriting.dfy`, `AmpmFinding.dfy`, `AmpmReading.dfy` | `ampm_ff.c`: records and chains; what writing and closing, finding, removing and cleaning up, seeking and reading compute |
| `AmpmSpace.dfy`, `AmpmTracking.dfy` | `ampm_ff.c`: headers and room on a volume; a file during a write, whatever the device does |
| `AmpmVolume.dfy`, `AmpmRuns.dfy` | `ampm_ff.c`: the operations on a volume, and whole runs of them |
| `AmpmDevice.dfy` | the volume of `ampm_ff.c` in the octets of the flash of `sst25.c` |
| `Sst25.dfy` | `sst25.c`: chunked writes and reads over a NOR memory |
| `Calendar.dfy` | `m_time.c`: `gmtime_r` and `mktime` |
| `CommandEngine.dfy`, `ModemTask.dfy` | `sparser.c`, and the escape to command mode in `ampm_gsm_main_task.c` |
| `HeapList.dfy`, `Encoding.dfy`, `Nmea.dfy` | `ampm_list.c`, `encoding.c`, `nmea_scanf` of `ampm_gps.c` |

Code that works on values is modelled by functions. Code that works step by step is modelled by classes and methods with the
same loops, each proved against such functions; the main results are lemmas about these. Flash faults, timers, replies of the
modem and random numbers are chosen arbitrarily; `readable` marks a flash device that never fails to read, `reliable` one that
never fails at all.

`Volume.Valid` says that each file the volume is known to hold has its chain of used sectors, its links, and, once closed,
its content and close record in flash. Every operation keeps it, for every record and on faulty devices too, so
`AmpmFile.ChainsDisjoint` holds in every state of every run. A failed write or erase harms no file but the one the
call is about, and a file that a write has not been able to extend stays among the files, unclosed. The results of reads are
not looked at: a used sector whose header was not read tests free, is handed out and erased (`AmpmTracking.LinkHarms`). So
after a failed read the volume counts only those files as known that have none of the sectors written to in the call. `seen`
says that no read has failed, and is sure where reads never fail; closing a file does not depend on it.

What can be found by name depends on what the used sectors say. `AmpmFinding.Clean`: every good header belongs to a file;
`Live`: every used sector names the start of a file; `AllLead`: every used sector leads to a file of the name found there.
Each implies the next. Opening and removing need only `AllLead`. Formatting establishes all three but for a header left
behind the volume; saving keeps `Clean` and `AllLead`, removing and cleaning up keep `Live`.

## Where the code does less than it seems to

- The probe loops skip the sector they start at and visit the one behind the volume, so a file of one sector may not be found
  when the random start is that sector (`AmpmFinding.OneSectorMissed`, `AmpmFinding.AlwaysMet`), and that other sector can be
  handed out. A file that gets it is reported written although it has lost its chain there (`AmpmVolume.Volume.Write`).
- The results of reading the flash are not looked at. A search for a free sector can so hand out a used one, and ruins the file
  that has it (`AmpmVolume.Volume.FindFreeSector`, `AmpmTracking.LinkHarms`).
- With both opening and creating asked for, a free sector that the probe meets before the file makes it create a second file of
  the name (`AmpmFinding.SearchFirst`).
- A file created with a name of more than 28 characters is not recognised again (`AmpmVolume.CreatesGood`).
- A read that crosses sectors is right only from the first sector into the second and not to its end (`AmpmReading.ReadIff`),
  because `ampm_f_next_sector` reads the link of the first sector only.
- A read that ends with its sector, such as the fifteenth of 256 octets, leaves that sector current, so the next one returns its
  octets again (`AmpmReading.StepAt`, `AmpmReading.RunIsStale`). Which sequences of reads are right is `AmpmReading.RunIff`;
  in pieces of 256 octets files of more than 3840 octets do not come back (`AmpmReading.PiecesIff`).
- `ampm_f_lseek` into the first sector copies fields of a record it has not read; it is sure to work exactly for targets in the
  file and beyond its first sector (`AmpmReading.SeekAt`).
- `ampm_f_close` does not look at the result of its last page write; the file can then be closed with its last page missing
  (`AmpmWriting.UnstoredClose`, and `stored` in `AmpmVolume.Volume.Close`).
- An unlink erases two sectors only. The headers of further sectors of the file stay good, and the volume is no longer clean
  (`AmpmFinding.CleanAfterUnlink`). If such a header comes to name a sector that a later file gets, removing that file can
  leave sectors that lead to no file (`AmpmFinding.UnlinkLeads`, `AmpmTracking.RemovalStrays`).
- `PROTO_Add` wraps its length counter for packets of 65534 and 65535 octets, which do not come back (`Protocol.Add`,
  `Protocol.RoundTripSent`).
- `PQUEUE_Get` does not count the start octet, and writes one octet more than the size it is given; with a negative size it
  writes on to the end of the frame (`PacketQueue.Get`).
- A frame cut off by a full ring is not taken by itself, but together with the next one (`PacketQueue.TakeMerged`); the parser
  then drops it (`PacketQueue.MergedParse`).
- Two interrupts between the increment of the tail and its wrap can empty a full ring (`RingInterrupt.MisfireLoses`,
  `RingInterrupt.TwoPutsInWindowLose`).
- `SST25_Write` cuts its count to 16 bits: 65536 octets write nothing and are reported good, and at the start of a sector
  still erase it (`Sst25.Flash.Write`).
- The escape to command mode can issue a fourth AT command on its way to a new start of the modem (`ModemTask.FourthAt`).
- The decoder takes the four-octet encodings that `ucs2_to_utf8` makes for three-octet ones (`Encoding.FourOctetsMisread`).
- `ucs2_to_utf8` has no encoding for U+FFFF and U+10FFFF (`Encoding.EncodeIsUtf8`).
- A width counts delimiters like all characters, so an RMC sentence with an empty date is misread (`Nmea.ScanWidth`).
- `list_insert`, unlike the other list functions, does not look whether the new item is on the list already; it then loses items
  or leaves a circle (`HeapList.List.Insert`).
- `mktime` does not look at a negative daylight bias, which can make its result negative (`Calendar.Tm.Mktime`).

## Model

| member | source | states |
|---|---|---|
| `FcsTable.FcstabIsSteps` | firmware/ampm_lib/lib/fcs.c:7-39 | Each of the 256 literal table entries is eight plain shifts of its index through the polynomial 0x8408. |
| `FcsTable.BitStepLinear` | firmware/ampm_lib/lib/fcs.c:62-65 | One shift is linear over exclusive or, for registers of any width. |
| `FcsTable.BitStepsInjective` | firmware/ampm_lib/lib/fcs.c:62-65 | Shifting is injective on 16-bit registers, so the table step loses no information. |
| `Fcs.FcsGet` | firmware/ampm_lib/lib/fcs.c:48-55 | For any buffer and length, the loop leaves the complement of the table-driven register run over exactly those octets; the buffer is not changed. |
| `Fcs.FcsCalculateIsSteps` | firmware/ampm_lib/lib/fcs.c:62-65 | The table expression toggles the octet in and shifts eight times. |
| `Fcs.FcsRunIsShift` | firmware/ampm_lib/lib/fcs.c:48-55 | For every buffer, the table-driven register equals the bit-by-bit reflected CRC (polynomial 0x8408) of the octets, least significant bit first. |
| `FcsDetection.GoodResidue` | firmware/ampm_lib/lib/fcs.c:48-65 | Sixteen plain shifts of 0xFFFF end at 0xF0B8, the constant of Appendix C.2 of RFC 1662. |
| `FcsDetection.GoodFcsIff` | firmware/ampm_lib/lib/fcs.c:48-65 | The two check octets equal the FCS of the data if and only if running the register over data and check octets, low one first, ends at 0xF0B8. |
| `FcsDetection.AcceptsIsGood` | firmware/ampm_lib/lib/protocol.c:34-48 | The test the parser makes on a completed body is the test of RFC 1662, for bodies of at least four octets. |
| `FcsDetection.WindowInjective` | firmware/ampm_lib/lib/fcs.c:62-65 | Different windows of up to sixteen bits leave different registers. |
| `FcsDetection.BurstDetected` | firmware/ampm_lib/lib/fcs.c:62-65 | Two bit strings that agree outside sixteen consecutive bits and leave the same register are equal. |
| `FcsDetection.AcceptedBodiesNoBurst` | firmware/ampm_lib/lib/protocol.c:34-48 | Two accepted bodies of equal length that differ only within sixteen consecutive bits, anywhere (so also within one octet or two adjacent ones), are the same. |
| `FcsDetection.AcceptedBodiesEvenFlips` | firmware/ampm_lib/lib/protocol.c:34-48 | Two accepted bodies of equal length differ in an even number of bits: every odd number of flipped bits is detected. |
| `Protocol.FlipIsXor` | firmware/ampm_lib/lib/protocol.c:142-152 | Toggling bit 5 by adding or subtracting is the exclusive or with 0x20. |
| `Protocol.FrameIs` | firmware/ampm_lib/lib/protocol.c:122-167 | A frame starts with 0x7E and ends with 0x7F, has neither between, and is longer than its body by two and by the number of octets from 0x7D to 0x7F in it. |
| `Protocol.StuffIs` | firmware/ampm_lib/lib/protocol.c:142-152 | Exactly these three are sent as two octets, 0x7D and the octet less 0x20; all others are sent as they are. |
| `Protocol.Add` | firmware/ampm_lib/lib/protocol.c:122-167 | The encoder succeeds exactly when the buffer has room for the stuffed body and two delimiters; it then leaves the frame and returns its length, else 0; nothing behind the buffer size is touched. Its wrapping length counter for 65534 and 65535 octets is included. |
| `Protocol.AddUnFcs` | firmware/ampm_lib/lib/protocol.c:170-202 | The same for the encoder without check octets, for every packet length. |
| `Protocol.OctetIs` | firmware/ampm_lib/lib/protocol.c:20-112 | An escape marks the next octet, also behind another escape; a start or stop octet leaves nothing collected; any other octet is collected, exclusive or with 0x20 if marked, until the buffer is full, when all is dropped. |
| `Protocol.RunFrame` | firmware/ampm_lib/lib/protocol.c:20-70 | From any parser state a frame whose body fits the buffer delivers nothing before its last octet, and there exactly what the completed body gives. |
| `Protocol.RoundTrip` | firmware/ampm_lib/lib/protocol.c:20-70 | From any parser state, a frame made by the encoder delivers exactly its payload, once, if and only if the payload has at least two octets and the buffer is larger than payload and check octets. |
| `Protocol.RoundTripSent` | firmware/ampm_lib/lib/protocol.c:20-167 | What the encoder sends for a payload comes back, from any state, if and only if the payload has 2 to 65533 octets and, with its check octets, is shorter than the parser's buffer; with 65534 and 65535 octets the length counter wraps. |
| `Protocol.RoundTripUnFcs` | firmware/ampm_lib/lib/protocol.c:72-112 | Without check octets the body comes back if and only if it has at least two octets and is shorter than the buffer. |
| `Protocol.NoiseThenFrame` | firmware/ampm_lib/lib/protocol.c:20-70 | Any octets in front of a frame, from any state, do not change what the frame delivers; afterwards the parser is idle. |
| `Protocol.LineDelivers` | firmware/ampm_lib/lib/protocol.c:20-70 | Over a line of frames separated by noise without stop octets, exactly the payloads sent are delivered, in order. |
| `Protocol.BurstFrameDropped` | firmware/ampm_lib/lib/protocol.c:34-48 | A frame whose body was hit by a burst of at most sixteen bits delivers nothing. |
| `Protocol.OddFlipsFrameDropped` | firmware/ampm_lib/lib/protocol.c:34-48 | A frame in whose body an odd number of bits was flipped delivers nothing. |
| `Protocol.Parser.constructor` | firmware/ampm_lib/lib/protocol.c:11-19 | A new parser has collected and delivered nothing, and is usable exactly if its buffer is not empty. |
| `Protocol.Parser.ParseByte` | firmware/ampm_lib/lib/protocol.c:20-70 | One octet takes the parser fields through one step of the specified parser with check octets. 1 is returned exactly at a stop octet behind a body with right check octets, and exactly then a callback gets one payload more. |
| `Protocol.Parser.ParseByteUnFcs` | firmware/ampm_lib/lib/protocol.c:72-112 | The same without check octets, for bodies of at least two octets. |
| `Protocol.Parser.Parse` | firmware/ampm_lib/lib/protocol.c:114-120 | Feeding a buffer is running the parser over it. |
| `RingBuffer.Init` | firmware/ampm_lib/lib/ringbuf.c:17-27 | Null buffers and buffers of fewer than two octets are refused; else the ring is empty. |
| `RingBuffer.Ring.Put` | firmware/ampm_lib/lib/ringbuf.c:34-52 | The octet is appended to the queue exactly when fewer than size - 1 octets are in it; else it is refused and the queue unchanged. |
| `RingBuffer.Ring.Get` | firmware/ampm_lib/lib/ringbuf.c:59-72 | The oldest octet is taken exactly when the queue is not empty. |
| `RingBuffer.Ring.GetFill` | firmware/ampm_lib/lib/ringbuf.c:74-84 | The fill level is the length of the queue. |
| `RingInterrupt.StepConsistent` | firmware/ampm_lib/lib/ringbuf.c:34-72 | With Put and Get cut into shared-memory steps, every step keeps the ring a queue with nothing lost, duplicated or reordered, if and only if it is not the full-test on a full queue while the tail stands one past the end. |
| `RingInterrupt.EveryInterleaving` | firmware/ampm_lib/lib/ringbuf.c:34-72 | In every interleaving with at most one Put between the increment of the tail and its wrap, all indices stay in range and all states are consistent: what was accepted is what was taken followed by what is queued. |
| `RingInterrupt.MisfireLoses` | firmware/ampm_lib/lib/ringbuf.c:34-72 | If the producer goes on after that full-test, the ring reads as empty and all its octets are lost. |
| `RingInterrupt.MisfireHeals` | firmware/ampm_lib/lib/ringbuf.c:34-72 | If the consumer wraps the tail and takes one octet more first, nothing is lost. |
| `RingInterrupt.RefusalsAreRight` | firmware/ampm_lib/lib/ringbuf.c:34-72 | Get gives up only on an empty queue and Put is refused only on a full one, also under interruption. |
| `RingInterrupt.UninterruptedPut` | firmware/ampm_lib/lib/ringbuf.c:34-52 | Four uninterrupted steps are one call of Put. |
| `RingInterrupt.UninterruptedGet` | firmware/ampm_lib/lib/ringbuf.c:59-72 | Four uninterrupted steps are one call of Get. |
| `RingInterrupt.PutInWindow` | firmware/ampm_lib/lib/ringbuf.c:34-52 | A call of Put between the increment of the tail and its wrap counts as one there exactly if it finds room. |
| `RingInterrupt.TwoPutsInWindowLose` | firmware/ampm_lib/lib/ringbuf.c:34-72 | Two Puts between the increment of the tail and its wrap can lose both octets. |
| `PacketQueue.Put` | firmware/ampm_lib/lib/packet_queue.c:8-35 | The ring gets as much of the frame of the packet as fits, and the 16-bit length of the frame is returned whether or not it fits. |
| `PacketQueue.WellFormedIff` | firmware/ampm_lib/lib/packet_queue.c:8-12 | The packets that are put whole are exactly those that are some data behind two octets with the length of both, low one first. |
| `PacketQueue.Get` | firmware/ampm_lib/lib/packet_queue.c:40-63 | The first frame in the ring is taken out, whatever precedes its start octet dropped; without a whole frame the ring is emptied and -1 returned. The buffer gets the start octet and up to bufSize further octets, nothing for zero, and for a negative size the octets behind the start octet up to 65536 more than that. |
| `PacketQueue.CopiedIs` | firmware/ampm_lib/lib/packet_queue.c:40-63 | With a positive size the buffer gets one octet more than that of the frame, so exactly the frames of up to that length come whole; with size zero nothing, and with a negative one the octets behind the start octet up to 65536 more. |
| `PacketQueue.TakeFrame` | firmware/ampm_lib/lib/packet_queue.c:40-63 | From junk without a start octet, a frame and anything behind it, exactly the frame is taken. |
| `PacketQueue.QueueOrder` | firmware/ampm_lib/lib/packet_queue.c:8-63 | Successive gets return the frames of the packets put, in order, exactly as the encoder without check octets makes them. |
| `PacketQueue.FramesParse` | firmware/ampm_lib/lib/protocol.c:72-112 | Parsing these frames one after the other from any state gives back the packets. |
| `PacketQueue.QueueRoundTrip` | firmware/ampm_lib/lib/packet_queue.c:8-63 | What was put into the ring and fits, taken out and parsed, is the same sequence of packets, length prefix included. |
| `PacketQueue.FramesAppend` | firmware/ampm_lib/lib/packet_queue.c:8-35 | Putting one more packet appends its frame. |
| `PacketQueue.TruncatedFrame` | firmware/ampm_lib/lib/packet_queue.c:8-63 | A frame that did not fit leaves octets without a stop octet, from which by themselves nothing is taken. |
| `PacketQueue.TakeMerged` | firmware/ampm_lib/lib/packet_queue.c:40-63 | With a frame behind them, they are taken together with it, from their first start octet on. |
| `PacketQueue.MergedParse` | firmware/ampm_lib/lib/packet_queue.c:8-63 | Any octets without a stop octet in front of frames are lost on the parser: exactly the packets of the frames are delivered. |
| `PacketQueue.TruncationLosesOne` | firmware/ampm_lib/lib/packet_queue.c:8-63 | A frame truncated for want of room between whole ones costs its own packet and no other. |
| `Exchange.SendAndParse` | firmware/ampm_lib/lib/protocol.c:20-167 | The encoder's buffer given to the parser, whatever its state: if the frame fits the buffer the payload and nothing else is delivered, if and only if it has 2 to 65533 octets and fits the parser; if it does not, nothing is. |
| `Exchange.PutAll` | firmware/ampm_lib/lib/packet_queue.c:8-35 | Packets whose frames fit an empty ring are all queued, in order. |
| `Exchange.GetAll` | firmware/ampm_lib/lib/packet_queue.c:40-63 | Taking all frames out of the ring and feeding each octet by octet to the parser without check octets empties the ring and delivers their packets, in order, whatever state the parser was in. |
| `Exchange.PutAndGet` | firmware/ampm_lib/lib/packet_queue.c:8-63 | Packets put into an empty ring that has room for them, taken out and parsed, are delivered as they were put. |
| `AmpmFile.StrCpyReads` | firmware/ampm_lib/ampm_ff/ampm_ff.c:81-92 | A name of up to 31 characters copied into the name field reads back, and is what the length test of the format check sees. |
| `AmpmFile.ProbeVisits` | firmware/ampm_lib/ampm_ff/ampm_ff.c:252-284 | The probe loops visit every sector but the one they start at, and the sector behind the end of the volume. |
| `AmpmFile.ChainIsUsed` | firmware/ampm_lib/ampm_ff/ampm_ff.c:96-107 | Every sector on the chain of a file counts as used. |
| `AmpmFile.FreeIsUnchained` | firmware/ampm_lib/ampm_ff/ampm_ff.c:252-284 | A sector that tests free is on no chain. |
| `AmpmFile.ChainsDisjoint` | firmware/ampm_lib/ampm_ff/ampm_ff.c:68-107 | On every valid volume no sector is on two files' chains, or twice on one. |
| `AmpmWriting.CreateReady` | firmware/ampm_lib/ampm_ff/ampm_ff.c:221-244 | A sector with the header written by a create is a file of no content, ready to be written. |
| `AmpmWriting.BufferOctet` | firmware/ampm_lib/ampm_ff/ampm_ff.c:517-521 | An octet that does not fill the page buffer extends the content by itself and leaves the flash alone. |
| `AmpmWriting.FlushParts` | firmware/ampm_lib/ampm_ff/ampm_ff.c:522-528 | Writing the full page buffer at its place in the last sector keeps content, chain and erased rest right. |
| `AmpmWriting.NextSector` | firmware/ampm_lib/ampm_ff/ampm_ff.c:529-551 | Linking a full last sector to a free one and writing its header extends the chain by that sector and leaves the file ready again. |
| `AmpmWriting.LinkedFields` | firmware/ampm_lib/ampm_ff/ampm_ff.c:536-551 | The link record of the full sector and the header of the next one point at each other, and are the record of the file in all else, each with its own checksum. |
| `AmpmWriting.CloseFinishes` | firmware/ampm_lib/ampm_ff/ampm_ff.c:365-379 | The last page and the close record make the file a closed one with its whole content in flash. |
| `AmpmWriting.ClosePlace` | firmware/ampm_lib/ampm_ff/ampm_ff.c:366-368 | For any record the page buffer is written at the offset less the size modulo 256, in 32 bits, modulo 3840. |
| `AmpmWriting.ClosedBy` | firmware/ampm_lib/ampm_ff/ampm_ff.c:365-379 | Whatever the page write reports, a good close record fits the file; if the page is in flash as well the file is closed with its whole content. |
| `AmpmWriting.UnstoredClose` | firmware/ampm_lib/ampm_ff/ampm_ff.c:365-379 | A page write that fails and leaves the flash erased is followed by a good close record all the same; the file is then not stored, for every file with an octet other than 0xFF in its last page. |
| `AmpmWriting.FailedCloses` | firmware/ampm_lib/ampm_ff/ampm_ff.c:365-379 | A record on which a write has failed makes no good close record. |
| `AmpmFinding.CleanIsLive` | firmware/ampm_lib/ampm_ff/ampm_ff.c:96-107 | If every good header belongs to a file, every used sector names the start of one. |
| `AmpmFinding.LiveLeads` | firmware/ampm_lib/ampm_ff/ampm_ff.c:96-107 | If every used sector names the start of a file, every used sector leads, in the two steps of the format check, to a file of the name found there. |
| `AmpmFinding.OnlyOwnAnswers` | firmware/ampm_lib/ampm_ff/ampm_ff.c:178-186 | With distinct names only sectors that lead to a file answer to its name. |
| `AmpmFinding.OpenFinds` | firmware/ampm_lib/ampm_ff/ampm_ff.c:147-250 | Opening by name finds the close record from any sector that answers to the name and is not the start of the probe. |
| `AmpmFinding.SearchFirst` | firmware/ampm_lib/ampm_ff/ampm_ff.c:158-246 | The search ends at the first sector in its order that answers, if that was asked for, or is free, if a new file was; with both asked for, a file behind a free sector is not found. |
| `AmpmFinding.OpenIff` | firmware/ampm_lib/ampm_ff/ampm_ff.c:147-250 | On any volume whose used sectors lead to files of distinct names, opening a closed file finds its close record if and only if the probe meets a sector that leads to the file. |
| `AmpmFinding.LongIsMet` | firmware/ampm_lib/ampm_ff/ampm_ff.c:147-250 | The probe meets one unless it starts at the only sector of the file. |
| `AmpmFinding.AlwaysMet` | firmware/ampm_lib/ampm_ff/ampm_ff.c:147-250 | Every probe, whatever its random start, meets a sector that leads to the file if and only if one besides the start sector does. |
| `AmpmFinding.OneSectorMissed` | firmware/ampm_lib/ampm_ff/ampm_ff.c:147-250 | If every good header belongs to a file and names are distinct, a closed file is found from every random start if and only if it has more than one sector; a file of one sector is not found when the probe starts there. |
| `AmpmFinding.NamedIff` | firmware/ampm_lib/ampm_ff/ampm_ff.c:325-344 | Removing by name finds a sector if and only if there is a file of that name. |
| `AmpmFinding.UnlinkRemoves` | firmware/ampm_lib/ampm_ff/ampm_ff.c:325-344 | Erasing the two sectors takes away that file and no other, with names distinct or not; all its sectors test free, and no sector of another file has changed. |
| `AmpmFinding.UnlinkLive` | firmware/ampm_lib/ampm_ff/ampm_ff.c:325-344 | If every used sector named the start of a file, it does so after the removal. |
| `AmpmFinding.UnlinkLeads` | firmware/ampm_lib/ampm_ff/ampm_ff.c:325-344 | If every used sector led to a file, it does so after the removal if and only if no sector that led to the removed file names a sector other than the two erased. |
| `AmpmTracking.RemovalStrays` | firmware/ampm_lib/ampm_ff/ampm_ff.c:325-344 | There is a disk on which one does: a file of sectors 0 and 1, and a good header left over in sector 2 that names sector 1; removed by sector 0, the file leaves sectors 1 and 2 behind, and these lead to no file. |
| `AmpmFinding.CleanAfterUnlink` | firmware/ampm_lib/ampm_ff/ampm_ff.c:325-344 | A volume on which every good header belongs to a file stays so if and only if the two erased sectors were all the removed file had. |
| `AmpmFinding.ErasesNoClosed` | firmware/ampm_lib/ampm_ff/ampm_ff.c:120-142 | The sector a turn of the cleanup erases is on no chain of a closed file, on any volume. |
| `AmpmFinding.CleanedUp` | firmware/ampm_lib/ampm_ff/ampm_ff.c:120-142 | After the cleanup all closed files are as they were; if the erases worked, all sectors of the others test free. |
| `AmpmFinding.CleanedLive` | firmware/ampm_lib/ampm_ff/ampm_ff.c:120-142 | If every used sector named the start of a file, after the cleanup it names the start of a closed one. |
| `AmpmReading.OpenedAtStart` | firmware/ampm_lib/ampm_ff/ampm_ff.c:187-196 | The record opened for a closed file stands at its first octet. |
| `AmpmReading.FormatMeans` | firmware/ampm_lib/ampm_ff/ampm_ff.c:68-94 | A record that passes the format check has a name of 1 to 28 characters and a permission below 256, and passes the guard of reading and closing if and only if its permission is one that opening gives. |
| `AmpmReading.SizeLimit` | firmware/ampm_lib/ampm_ff/ampm_ff.c:430-438 | The guard allows files of up to 100000 octets, the format check only smaller ones. |
| `AmpmReading.WalkClosed` | firmware/ampm_lib/ampm_ff/ampm_ff.c:394-402 | In a closed file following link records reaches the sector that many places on along the chain, or stops at its end. |
| `AmpmReading.SeekAt` | firmware/ampm_lib/ampm_ff/ampm_ff.c:385-408 | A seek leaves the record standing at its target, whatever the local record held before, if and only if the target is in the file and not in its first sector. |
| `AmpmReading.ReadInFile` | firmware/ampm_lib/ampm_ff/ampm_ff.c:427-489 | From any record whose current sector is one of the closed file at or before its offset, a read succeeds, takes from the content what the specified read takes, and leaves such a record. |
| `AmpmReading.StepAt` | firmware/ampm_lib/ampm_ff/ampm_ff.c:427-489 | After a read the record stands at the new offset if and only if the read ended inside its sector, or inside the second after starting in the first; so not after one that ends with its sector. |
| `AmpmReading.ReadIff` | firmware/ampm_lib/ampm_ff/ampm_ff.c:462-489 | A read of a place and length is right for every file of that size if and only if it stays in one sector, or goes from the first into the second and not to its end. |
| `AmpmReading.RunAt` | firmware/ampm_lib/ampm_ff/ampm_ff.c:427-489 | Reads one after another from a fresh open all succeed, and the record stands at the end of the last if and only if every one has stayed in step. |
| `AmpmReading.InStepIff` | firmware/ampm_lib/ampm_ff/ampm_ff.c:427-489 | They stay in step if and only if none of them ends at octet 3840, or at 7680 or beyond. |
| `AmpmReading.RunIff` | firmware/ampm_lib/ampm_ff/ampm_ff.c:427-489 | A sequence of reads from the start of a file gives the front of the content for every file of that size if and only if each read is right in itself and all but the last that reads anything stay in step. |
| `AmpmReading.PiecesIff` | firmware/ampm_lib/ampm_ff/ampm_ff.c:427-489 | Read in pieces of one length until one comes short, all files of a size come back as they are if and only if they have at most 3840 octets, or the length does not divide 3840 and the file has less than 7680 octets, or exactly 7680 and takes more than one piece. |
| `AmpmReading.RunIsStale` | firmware/ampm_lib/ampm_ff/ampm_ff.c:470-487 | After a read that ended with its sector the next octet read is the first one of that same sector again. |
| `AmpmSpace.ProbedToEnd` | firmware/ampm_lib/ampm_ff/ampm_ff.c:252-284 | A search for a free sector fails, or hands out the sector behind the volume, only when every sector but the one the probe starts at is used. |
| `AmpmSpace.CleanGrows` | firmware/ampm_lib/ampm_ff/ampm_ff.c:221-244 | Creating and extending files keep a volume on which every good header belongs to a file. |
| `AmpmSpace.LeadGrows` | firmware/ampm_lib/ampm_ff/ampm_ff.c:529-551 | They keep a volume whose used sectors lead to files, also when a file goes on behind the volume. |
| `AmpmSpace.SpareGrows` | firmware/ampm_lib/ampm_ff/ampm_ff.c:529-551 | A growing file takes no more sectors without a good header than its chain gets. |
| `AmpmTracking.PageFills` | firmware/ampm_lib/ampm_ff/ampm_ff.c:522-528 | A page write, good or failed, touches no other file and leaves the chain of the own one; if the file was whole and the device does not fail, it succeeds and the file is whole. |
| `AmpmTracking.LinkGoes` | firmware/ampm_lib/ampm_ff/ampm_ff.c:536-551 | A link record and a header, good or failed, touch no other file and leave the old chain; the chain grows by the free sector, and a device that does not fail lets the file go astray only by the sector behind the volume. |
| `AmpmTracking.NoRoomNow` | firmware/ampm_lib/ampm_ff/ampm_ff.c:529-535 | When no sector is found for a full file that was whole, the sectors without a good header were not enough for it when the write began. |
| `AmpmTracking.LinkHarms` | firmware/ampm_lib/ampm_ff/ampm_ff.c:529-551 | Linking the written file to a sector leaves another file whole if and only if that file does not have the sector. So a used sector that tested free because its header was not read ruins the file it belongs to. |
| `AmpmVolume.Volume.FormatCheck` | firmware/ampm_lib/ampm_ff/ampm_ff.c:96-107 | If neither read fails, the two-stage check holds exactly if the sector is used, and then leaves the header of the start sector it names; if one fails, it is said only that the record passed the test. The results of the reads are not looked at. |
| `AmpmVolume.Volume.Look` | firmware/ampm_lib/ampm_ff/ampm_ff.c:265-277 | The same for the header read and the check that every loop over the sectors begins with. |
| `AmpmVolume.Volume.FindFreeSector` | firmware/ampm_lib/ampm_ff/ampm_ff.c:252-284 | If no read fails, the first sector in probe order that tests free is found, and none, or the one behind the volume, only if all others but the start of the probe are used. If one fails a used sector may be handed out, but none out of range. |
| `AmpmVolume.Volume.PutOctet` | firmware/ampm_lib/ampm_ff/ampm_ff.c:517-553 | One turn of the write loop, on any device. Only the sectors of a known set have changed. If no read fails, no other file is touched and the own chain stays; on a sound device it fails or makes a whole file go astray only for want of room. |
| `AmpmVolume.Volume.Write` | firmware/ampm_lib/ampm_ff/ampm_ff.c:493-556 | On any device and for any record: a record that may not be written changes nothing; one that may passes the guard; OK means that size and offset grew by the octets given, with ones in the page buffer behind a page just written, and a failure is marked in the status of the record. If no read fails, the files other than the written one stay, and the written one stays among the files, unclosed, with its chain; when kept, it is extended by exactly the octets given, and the sector behind the volume is untouched. If one fails, all files stay that have none of the sectors written to. On a sound device a file that was whole and stays below the size limit is kept, unless it was to get sectors more and not more than that many were left without a good header; if it is reported written and not kept, it went on behind the volume. |
| `AmpmVolume.Volume.Close` | firmware/ampm_lib/ampm_ff/ampm_ff.c:347-382 | On any device, failing reads included, and for any record: files stay that do not have one of the sectors written to. For the file being written, OK means that a good close record for it is in flash, and it counts as stored exactly if its page is too; it is then closed with its content. A sound device always gives both. |
| `AmpmVolume.Volume.Open` | firmware/ampm_lib/ampm_ff/ampm_ff.c:147-250 | If no read fails, the result is that of the search in probe order: a file that is there, a new empty one in the first free sector with all others untouched, or a cleared name. On any device, a file that is there is opened at its start with a record that passes the guards, and can be written if and only if the mode has the bit 0x02. If a read fails, only a create writes, to one sector, and all files stay that do not have it. Names for a new file may have up to 67 characters; a sound device makes it a file if they are 1 to 28. |
| `AmpmVolume.Modes` | firmware/ampm_lib/ampm_ff/ampm_ff.h:33-38 | A file that is there is looked for with the bits 0x01, 0x10 and 0x80, a new one is made with 0x04 and 0x08. |
| `AmpmVolume.CreatesGood` | firmware/ampm_lib/ampm_ff/ampm_ff.c:221-236 | The header written by a create is a good one if and only if the name has 1 to 28 characters and the sector is in the volume. |
| `AmpmVolume.Volume.Lseek` | firmware/ampm_lib/ampm_ff/ampm_ff.c:385-408 | For any record, if no read fails, the result is that of following the link records from its start sector; a seek that stops changes nothing. |
| `AmpmVolume.Volume.NextOf` | firmware/ampm_lib/ampm_ff/ampm_ff.c:411-424 | If the read does not fail, the record goes on to the sector that the link record of the first sector names exactly if that record is good; start, size and offset always stay. |
| `AmpmVolume.Volume.Read` | firmware/ampm_lib/ampm_ff/ampm_ff.c:427-490 | On any device and for any record the count never goes beyond the size, and is less than asked for only if it goes up to it; nothing behind it in the buffer changes, and of the record only the offset, by the count, and the current sector. If no read fails, it succeeds exactly if the record passes the guard and the octets lie in one sector or the first sector has a good link record, and the buffer gets what the specified read of the disk gives. |
| `AmpmVolume.Volume.Unlink` | firmware/ampm_lib/ampm_ff/ampm_ff.c:325-344 | Only two sectors change, and every file that has neither stays as it was. If no read fails, it succeeds exactly if some sector is used by a file of that name, and the two are the first such sector and the start it leads to; on a sound device both end erased. |
| `AmpmVolume.Volume.DiskCleanup` | firmware/ampm_lib/ampm_ff/ampm_ff.c:120-142 | If no read fails, exactly the closed files are left, untouched, on any device and any volume; if one fails, the files that have none of the sectors erased. On a sound device all sectors of the unclosed ones test free, no good header has come up, and if every used sector named the start of a file it still does. |
| `AmpmVolume.Volume.DiskFormat` | firmware/ampm_lib/ampm_ff/ampm_ff.c:109-117 | A sound device is left with every sector erased and spare, no file, and no used sector. |
| `AmpmRuns.Save` | firmware/ampm_lib/ampm_ff/ampm_ff.c:147-382 | On a sound device, from any valid volume: creating a file, writing any parts one by one and closing it never harms what was there. It is saved, closed with the parts joined as its content, whenever the total is below the size limit and there were two sectors without a good header more than it fills. It takes one sector more than it fills at most, and keeps every used sector leading to a file and every good header belonging to one. A run that fails before closing keeps the volume clean, if it was, unless the file went on behind it. |
| `AmpmRuns.SaveFresh` | firmware/ampm_lib/ampm_ff/ampm_ff.c:109-382 | On a volume just formatted every file below the size limit is saved, and can be found; the room it leaves is known, and every good header belongs to a file if none was left behind the volume. |
| `AmpmRuns.Load` | firmware/ampm_lib/ampm_ff/ampm_ff.c:147-490 | Opening a closed file by name, going to the start or beyond the first sector, and reading pieces of right lengths one after another, if no read of the device fails, gives exactly the octets of its content; it fails exactly if the probe meets no sector that leads to the file, so never with more than one sector. |
| `AmpmRuns.LoadWhole` | firmware/ampm_lib/ampm_ff/ampm_ff.c:147-490 | Opening a closed file by name and reading pieces of any one length until one comes short ends, and gives the whole content: always if that has at most 3840 octets, and for longer ones under the condition in the row of PiecesIff. |
| `AmpmRuns.Access` | firmware/ampm_lib/ampm_ff/ampm_ff.c:147-556 | On any device and for any name: opening without the bit 0x02, reading, trying to write and closing leaves flash, files and page buffer as they were, and the write is refused. With the bit, a write right after opening passes its guard. |
| `AmpmRuns.Remove` | firmware/ampm_lib/ampm_ff/ampm_ff.c:325-344 | If every used sector leads to a file, removing by name succeeds exactly if there is such a file; it and no other is gone, its sectors test free, all others are untouched, and no room is lost. Every used sector then leads to a file if and only if none strays as in the row of UnlinkLeads; so always if all named starts. |
| `AmpmRuns.TwoFiles` | firmware/ampm_lib/ampm_ff/ampm_ff.c:109-490 | Formatting, saving two files of different names, removing the first and reading the second, on a sound device: the removal succeeds, what is read is the front of the second file, and it is always found if it has a full sector. No room needs to be asked for. |
| `AmpmDevice.RecOfImage` | firmware/ampm_lib/ampm_ff/ampm_ff.h:54-65 | A file record reads back from its 68 octets, words low octet first. |
| `AmpmDevice.BlankIsOnes` | firmware/ampm_lib/ampm_ff/ampm_ff.h:54-65 | A record reads as the blank one exactly if all its octets are erased. |
| `AmpmDevice.ImageParts` | firmware/ampm_lib/ampm_ff/ampm_ff.h:54-65 | Each field of a record has its place in the 68 octets. |
| `AmpmDevice.LowFirst` | firmware/ampm_lib/ampm_ff/ampm_ff.h:54-65 | A word is read from four octets, the low one first. |
| `AmpmDevice.ChecksumIsSum` | firmware/ampm_lib/ampm_ff/ampm_ff.c:33-42 | The checksum of a record read from flash is the sum of the 64 octets in front of it. |
| `AmpmDevice.OneOctetShows` | firmware/ampm_lib/ampm_ff/ampm_ff.c:68-94 | Two records that pass the format check never differ in just one octet. |
| `AmpmDevice.Layout` | firmware/ampm_lib/ampm_ff/ampm_ff.h:46-51 | The volume goes from 0x92000 to the end of the first megabyte, in sectors with header, link record, close record and data at 0, 68, 136 and 256. |
| `AmpmDevice.Device.ProgramHeader` | firmware/ampm_lib/ampm_ff/ampm_ff.c:60-66 | In the octets of the flash a header write does to the disk what the volume takes it to do: only its sector changes; if reported good the header is there; on a sound device it is, and the rest of the sector is erased. |
| `AmpmDevice.Device.ProgramRec` | firmware/ampm_lib/ampm_ff/ampm_ff.c:60-66 | Writing a record behind the header changes only its own octets; if reported good it is there, and over a blank record a sound device always succeeds. |
| `AmpmDevice.Device.ProgramLink` | firmware/ampm_lib/ampm_ff/ampm_ff.c:530-538 | So a link record does to the disk what the volume takes it to do: header, close record, data and all other sectors stay. |
| `AmpmDevice.Device.ProgramClose` | firmware/ampm_lib/ampm_ff/ampm_ff.c:370-378 | The same for a close record. |
| `AmpmDevice.Device.ProgramPage` | firmware/ampm_lib/ampm_ff/ampm_ff.c:524-528 | The same for a page: good or failed it changes only the octets of the page; if reported good they hold it, and into erased octets a sound device always succeeds. |
| `AmpmDevice.Device.SpillPage` | firmware/ampm_lib/ampm_ff/ampm_ff.c:366-368 | A page that does not fit its sector changes only data of it, and the next sector. |
| `AmpmDevice.Device.Erase` | firmware/ampm_lib/ampm_ff/ampm_ff.c:44-49 | Erasing changes only the sector, and on a sound device leaves it blank. |
| `AmpmDevice.Device.ReadRec` | firmware/ampm_lib/ampm_ff/ampm_ff.c:51-58 | Reading a record gives the one that the octets in flash make, if the driver reports the read good; on a sound device it always does. |
| `AmpmDevice.Device.ReadHeader` | firmware/ampm_lib/ampm_ff/ampm_ff.c:96-107 | So reading a header gives the one the volume has there. |
| `AmpmDevice.Device.ReadLink` | firmware/ampm_lib/ampm_ff/ampm_ff.c:394-402 | The same for a link record. |
| `AmpmDevice.Device.ReadClose` | firmware/ampm_lib/ampm_ff/ampm_ff.c:187-196 | The same for a close record. |
| `AmpmDevice.Device.ReadData` | firmware/ampm_lib/ampm_ff/ampm_ff.c:462-489 | The same for data of a sector. |
| `Sst25.AndErased` | firmware/ampm_lib/flash_mem/sst25.c:90-131 | Programming an erased octet leaves the octet given. |
| `Sst25.FitsIff` | firmware/ampm_lib/flash_mem/sst25.c:99-117 | Programming leaves a bit set exactly if it was set and is to be; so an octet can be left in flash if and only if all its bits were set. |
| `Sst25.ErasedIsProgrammable` | firmware/ampm_lib/flash_mem/sst25.c:133-208 | Any data can be left in a range that is erased up to the first sector start in it. |
| `Sst25.Flash.WriteChunk` | firmware/ampm_lib/flash_mem/sst25.c:133-153 | A chunk of at most a page, also one that reaches into the next sector, changes only its own octets and the sector that starts in it; on a sound device the result is given octet by octet. |
| `Sst25.Flash.Write` | firmware/ampm_lib/flash_mem/sst25.c:155-208 | The count is cut to 16 bits. OK means that the whole range holds the data; outside it only sectors that start in it have changed; a sound device answers OK exactly if no bit would have to be set in the part before the first sector start. |
| `Sst25.ChunkedJoin` | firmware/ampm_lib/flash_mem/sst25.c:155-208 | No later chunk's erase touches an earlier chunk. |
| `Sst25.WrittenJoin` | firmware/ampm_lib/flash_mem/sst25.c:155-208 | Two chunks written one after the other come to the write of both. |
| `Sst25.Flash.Read` | firmware/ampm_lib/flash_mem/sst25.c:232-263 | Reading in chunks of 512 octets is one contiguous read of the count cut to 16 bits. |
| `Calendar.TruncFixed` | firmware/ampm_lib/lib/m_time.c:103-125 | A truncated division, put right after a negative remainder, is the flooring one. |
| `Calendar.DaysToIs` | firmware/ampm_lib/lib/m_time.c:157-166 | The closed form with its three leap corrections equals the year-by-year count of days for every year from 1970. |
| `Calendar.DayNoIsCivil` | firmware/ampm_lib/lib/m_time.c:52-82 | The day counted year by year and month by month from the table is, for every year, the closed form 365 y + y/4 - y/100 + y/400 + (153 m + 2)/5 + d - 719469, with years and months counted from March. |
| `Calendar.MonthLenIs` | firmware/ampm_lib/lib/m_time.c:52-55 | So each month has the length that is between the closed forms of its first day and the next one's. |
| `Calendar.WeekdayIs` | firmware/ampm_lib/lib/m_time.c:68 | The day of the week is the closed form (y + y/4 - y/100 + y/400 + (13 m + 2)/5 + d + 2) modulo 7. |
| `Calendar.AbsIsSecond` | firmware/ampm_lib/lib/m_time.c:103-141 | So the second that any fields denote, in range or not, has a closed form. |
| `Calendar.DayUnique` | firmware/ampm_lib/lib/m_time.c:57-85 | A day of the calendar has one year, month and day in their ranges. |
| `Calendar.NormalUnique` | firmware/ampm_lib/lib/m_time.c:57-85 | Fields in their ranges with right weekday and yearday are determined by the second they denote. |
| `Calendar.NotBefore1970` | firmware/ampm_lib/lib/m_time.c:142-143 | Fields in their ranges denote a second from 1970 on exactly if their year does. |
| `Calendar.Tm.Gmtime` | firmware/ampm_lib/lib/m_time.c:57-85 | For every 32-bit time the fields are in range, and by the closed forms for day, weekday and day of the year they denote that second (a negative time as the unsigned number of the same bits). |
| `Calendar.Tm.CarryClock` | firmware/ampm_lib/lib/m_time.c:103-120 | For arbitrary fields the clock gets into range and the days carried keep the total of seconds. |
| `Calendar.Tm.Normalize` | firmware/ampm_lib/lib/m_time.c:103-141 | For arbitrary, also negative, fields the loops end, every field is in range, and the absolute second is the same as before. |
| `Calendar.Tm.Mktime` | firmware/ampm_lib/lib/m_time.c:95-199 | The fields end in range and denote by the closed forms the same second as before; the result is that second moved by zone and bias, or -1 if it, or it after the zone, is outside 0 to 2147483647, or the bias makes it negative; a negative bias can take it beyond 31 bits. Weekday and day of the year are right by their closed forms from 1970 on. |
| `Calendar.TimeTrip` | firmware/ampm_lib/lib/m_time.c:57-199 | mktime after gmtime_r, or after localtime_r with any zone that stays in range, gives back every time from 0 to 2147483647. |
| `Calendar.FieldsTrip` | firmware/ampm_lib/lib/m_time.c:57-199 | gmtime_r after mktime gives back the normalised fields, weekday and yearday included, earlier by the bias and without the mark if they were marked as daylight saving time; mktime answers -1 exactly if the second denoted is out of range or earlier than the bias, or comes to 4294967295. |
| `CommandEngine.Engine.SendCmd` | firmware/ampm_lib/lib/sparser.c:44-60 | A command is taken up exactly when the engine is idle, with all its retries before it; else nothing changes. |
| `CommandEngine.Engine.Task` | firmware/ampm_lib/lib/sparser.c:74-198 | One turn of the command task on its fields is one step of the specified engine. |
| `CommandEngine.SendsBounded` | firmware/ampm_lib/lib/sparser.c:74-198 | In every run no command is sent more than once and once again for each of its retries. |
| `CommandEngine.ErrorAfterAllSends` | firmware/ampm_lib/lib/sparser.c:94-106 | A command fails for want of retries only after it has been sent exactly that often. |
| `CommandEngine.CommandEnds` | firmware/ampm_lib/lib/sparser.c:74-166 | In every run of a command with both callbacks: it ends well if and only if the answer came in its wait phase before the timer ran out, and is not sent again after it; each transmission given up, for the time or a wish to resend, costs one retry, and the one given up without any left ends it in error. |
| `CommandEngine.UnansweredEnds` | firmware/ampm_lib/lib/sparser.c:74-166 | In every run a command without one of the two callbacks ends well if it ends. |
| `CommandEngine.TurnsWait` | firmware/ampm_lib/lib/sparser.c:74-166 | A turn sends exactly when the delay before has run out. It ends a command exactly if an end callback, where there is one, agrees, and well only after the delay behind the answer. |
| `CommandEngine.StepOrder` | firmware/ampm_lib/lib/sparser.c:168-192 | An idle engine takes up the head of what is ahead, or drops the queue after a failure at the end of a chain; no other step changes what is ahead. |
| `CommandEngine.RunOrder` | firmware/ampm_lib/lib/sparser.c:168-192 | In every run commands are taken up in order, chained ones before queued ones, none skipped; what is not taken up is still ahead or was dropped after a failure. |
| `CommandEngine.BusyRank` | firmware/ampm_lib/lib/sparser.c:74-166 | Every turn of a busy engine that changes anything brings the command nearer to its end. |
| `CommandEngine.StepWork` | firmware/ampm_lib/lib/sparser.c:74-198 | Every turn that changes anything lessens the work left; a turn with the timer run out changes something unless nothing is left. |
| `CommandEngine.RunEnds` | firmware/ampm_lib/lib/sparser.c:74-198 | After as many such turns as there is work, among whatever others, the engine is idle with chain and queue empty. |
| `ModemTask.Task.Iteration` | firmware/ampm_lib/ampm_gsm/ampm_gsm_main_task.c:670-705 | One iteration of the three phases, fall-through included, followed by a turn of the engine, is one step of the specified loop. |
| `ModemTask.FewCommands` | firmware/ampm_lib/ampm_gsm/ampm_gsm_main_task.c:670-705 | In every run from the start of the escape at most four escapes and four AT commands are issued, at most three AT commands on the way to idle, and four of both on the way to init. |
| `ModemTask.IdleIffAnswered` | firmware/ampm_lib/ampm_gsm/ampm_gsm_main_task.c:670-705 | In every run from the start of the escape: when it is over the modem is idle if and only if an escape or AT command was answered; after that answer no more are issued, so an answered first escape leaves one escape and no AT command. |
| `ModemTask.FirstEscape` | firmware/ampm_lib/ampm_gsm/ampm_gsm_main_task.c:670-705 | There is such a run from every idle engine. |
| `ModemTask.FailedOnes` | firmware/ampm_lib/ampm_gsm/ampm_gsm_main_task.c:683-696 | An escape that fails has been sent once, an AT command twice. |
| `ModemTask.AnsweredAt` | firmware/ampm_lib/ampm_gsm/ampm_gsm_main_task.c:676-682 | An answered AT command ends the escape in the next iteration. |
| `ModemTask.FallsThrough` | firmware/ampm_lib/ampm_gsm/ampm_gsm_main_task.c:676-700 | The wait phase that the check phase falls into never changes anything. |
| `ModemTask.IterateWork` | firmware/ampm_lib/ampm_gsm/ampm_gsm_main_task.c:670-705 | No iteration adds to the measure of what is left, and one with the timer run out lessens it. |
| `ModemTask.LoopEnds` | firmware/ampm_lib/ampm_gsm/ampm_gsm_main_task.c:670-705 | After as many iterations with the timer run out as the measure says, among whatever others, the modem is idle or goes to init. |
| `ModemTask.FourthAt` | firmware/ampm_lib/ampm_gsm/ampm_gsm_main_task.c:688-705 | There is a run from every idle engine that issues all four AT commands and ends in init. |
| `HeapList.WithoutKeeps` | firmware/ampm_lib/lib/ampm_list.c:239-262 | Taking an item out leaves the others, and only them, still distinct. |
| `HeapList.List.Tail` | firmware/ampm_lib/lib/ampm_list.c:117-128 | The last item, or null for an empty list. |
| `HeapList.List.Length` | firmware/ampm_lib/lib/ampm_list.c:274-284 | The number of items. |
| `HeapList.List.Remove` | firmware/ampm_lib/lib/ampm_list.c:239-262 | The list is the old one without the item, whose link is cleared; if it was not on the list no link changes. |
| `HeapList.List.Add` | firmware/ampm_lib/lib/ampm_list.c:142-158 | The list is the old one without the item, followed by the item. |
| `HeapList.List.Push` | firmware/ampm_lib/lib/ampm_list.c:164-173 | The list is the item, followed by the old one without it. |
| `HeapList.List.Chop` | firmware/ampm_lib/lib/ampm_list.c:185-204 | The last item is taken off. |
| `HeapList.List.Pop` | firmware/ampm_lib/lib/ampm_list.c:217-226 | The first item is taken off. |
| `HeapList.List.Insert` | firmware/ampm_lib/lib/ampm_list.c:302-311 | The new item stands right behind the given one, the others in their order, if and only if it was not on the list. If it stood before the given one, the items behind it up to that one are lost; if it was that one or stood behind it, the links run in a circle. Behind an item that is not on the list it is linked there, and the list stays as it was. Without a given item it goes to the front. |
| `HeapList.CircleIsNoList` | firmware/ampm_lib/lib/ampm_list.c:302-311 | When the links run in a circle there is no list any more: no sequence of items that ends. |
| `Encoding.DecodeEncode` | firmware/ampm_lib/lib/encoding.c:65-138 | Every encodable unit decodes to itself and to the right number of octets, whatever follows. |
| `Encoding.RoundTrip` | firmware/ampm_lib/lib/encoding.c:37-138 | Decoding the encodings of any code units gives those before the first zero, without surrogates and 0xFFFF. |
| `Encoding.RoundTripIff` | firmware/ampm_lib/lib/encoding.c:37-138 | The same units come back if and only if all are in 1 to 0xFFFE and none is a surrogate. |
| `Encoding.EncodeIsUtf8` | firmware/ampm_lib/lib/encoding.c:104-138 | What is written is the UTF-8 of section 4 of RFC 3629, octet ranges and value, and its length is returned, for all code points but U+FFFF and U+10FFFF; these two and everything beyond give -1, surrogates 0. |
| `Encoding.DecodesUtf8` | firmware/ampm_lib/lib/encoding.c:65-95 | Every UTF-8 of a code point of sixteen bits is decoded to it, whatever follows. |
| `Encoding.DecodesFirst` | firmware/ampm_lib/lib/encoding.c:37-58 | A text of such decodes one by one, up to the first zero or U+FFFF. |
| `Encoding.DecodeFails` | firmware/ampm_lib/lib/encoding.c:65-95 | Decoding fails if and only if the first octet can start none, or the text ends inside a unit. |
| `Encoding.FourOctetsMisread` | firmware/ampm_lib/lib/encoding.c:65-138 | A code point beyond 16 bits, encoded in four octets, decodes to its upper bits alone. |
| `Encoding.UcsToUtf8` | firmware/ampm_lib/lib/encoding.c:104-138 | The octets of the encoding and a zero are written, the rest of the buffer untouched, and their number returned, 0 for surrogates, -1 for other failures. |
| `Encoding.EncodeText` | firmware/ampm_lib/lib/encoding.c:104-138 | Encoding unit after unit leaves the encodings joined, ended by a zero. |
| `Encoding.Utf8ToUcs` | firmware/ampm_lib/lib/encoding.c:37-58 | The output holds the decoded units and a zero; the length returned is theirs in 16 bits. |
| `Nmea.Scanf` | firmware/ampm_lib/gps/ampm_gps.c:681-814 | The count is the number of items the specified scan takes, and each target holds its item, one character of it for c and C, or, for an empty one or an unknown letter, what it held before. |
| `Nmea.ScanField` | firmware/ampm_lib/gps/ampm_gps.c:716-745 | A specifier without width takes exactly the field up to the delimiter behind it. |
| `Nmea.ScanWidth` | firmware/ampm_lib/gps/ampm_gps.c:708-731 | A specifier with a width takes exactly so many characters, whatever they are, and ends the scan if there are fewer. |
| `Nmea.ScanLast` | firmware/ampm_lib/gps/ampm_gps.c:733-737 | A specifier at the end of the format takes all that is left. |
| `Nmea.ScanStops` | firmware/ampm_lib/gps/ampm_gps.c:716-806 | A field too long for one character, or with a specifier of an unknown letter, is counted and ends the scan. |
| `Nmea.ScanSentence` | firmware/ampm_lib/gps/ampm_gps.c:681-814 | A text of delimited fields, blocks of given widths and literal parts, scanned by the format made for them, gives exactly the fields and blocks, whatever the blocks hold, and the scan goes on behind. |
| `Nmea.ScanPairs` | firmware/ampm_lib/gps/ampm_gps.c:603-614 | Any number of two-digit specifiers takes as many two-character fields that stand together. |
| `Nmea.ScanRmc` | firmware/ampm_lib/gps/ampm_gps.c:570-577 | The format of the RMC sentence takes all fourteen items of any such sentence, the date in two digits each. |
| `Nmea.ParseTime` | firmware/ampm_lib/gps/ampm_gps.c:598-624 | The time is taken if and only if it has six characters, or eight to ten with a point behind the sixth; the texts of hours, minutes, seconds and fraction are at their places. |
| `Nmea.ScanPrefix` | firmware/ampm_lib/gps/ampm_gps.c:700-705 | Equal literal text in front of both changes nothing. |

## Left out

- AmpmVolume.Volume.Write: for a record that follows no file being written, such as one of a file opened again, it only says which files stay, since the code keeps no invariant there; from the size limit on the content is not followed. Writes of 65536 octets and more, whose 16-bit loop counter never ends, are excluded.
- AmpmVolume.Volume.Close: for such a record, too, it only says which files stay.
- AmpmVolume.Volume.Read: lengths so near to 2 to the 32 that the offset plus the length wraps are excluded, and so are buffers shorter than what is read.
- AmpmVolume.Volume.Open: names of 68 and more characters for a new file, which run over the end of the record, are excluded.
- AmpmVolume.Volume.Unlink: how far a file is affected whose sector was erased because a read failed is not said; such files are only no longer counted as known. So for every operation of the volume.
- AmpmVolume.Volume.Valid: the volume keeps sectors, not octets; `AmpmDevice.Device` proves for the octets of the flash the contracts its device methods have.
- AmpmRuns.Save: stated for a device that does not fail, and names of 1 to 28 characters, as the format check demands; longer ones make files that are not recognised again. What is left of a file that is lost and closed all the same is not said.
- Calendar.Tm.Mktime: `int` and `long` are unbounded; fields so large that the sums overflow 32 bits are undefined in C. Only the subtraction of the bias is taken to wrap.
- Nmea.Scanf: the numeric conversions of an item, the cut of widths at 16 digits, and null targets, whose items are counted but not stored, are not modelled; targets hold the text of their item.
- Protocol.Parser.ParseByte: a parser with a buffer of no octets is excluded, as its first octet would be written outside.
- Protocol.Parser.ParseByteUnFcs: the same.
- Protocol.Parser.Parse: the same.
- PacketQueue.Get: the buffer must have room for the octets that can be written.
- PacketQueue.QueueRoundTrip: for packets whose frames fit the free space of the ring; what happens to others is in `PacketQueue.TruncationLosesOne`.
- CommandEngine.RunEnds: end callbacks that change the phase themselves are not modelled; those that answer zero hold the engine in its phase.
- ModemTask.LoopEnds: other tasks that send commands through the same engine during the escape are not modelled.
- The page write of the flash is taken to program its octets one by one; chips that wrap inside a 256-octet page are not modelled.
- SPI transfers, status polling, UART, pins and the RTOS are replaced by arbitrary outcomes.
- `ampm_f_printf`, `ampm_f_searchfile`, `ampm_f_getfree`, `APQUEUE_Put`, `APQUEUE_Get`, `unilen` and byte swapping would only add easy members.
- `FindData` and `StrComnandParser` do not implement an exact search, and have no property to state.
- `RINGBUF_GetFill` under interruption: its two reads can belong to different states.
- GPS unit conversion, DTMF, the GSM start-up script, PPP and sockets, the USB and SD wrappers, and the vendored libraries.
