# What the boards, their test benches and their scripts promise

This project models the parts of the repository that keep state or run over time, and proves what
they promise on every input or in every run:

- **The serial line codec** (`SerialLine.dfy`). A sender drives a wire, a receiver samples it with a bit
  period of its own. Every line of text arrives, however long it is, just when the two periods lie within
  a window, and the window is exact.
- **TileLink bus models** (`TileLink.dfy`, `BurstCommands.dfy`, `BurstLaws.dfy`, `BurstFields.dfy`,
  `BurstMaster.dfy`, `BurstMemory.dfy`, `BurstMessages.dfy`, `LiteBus.dfy`). The burst masters as processes
  that move from rising edge to rising edge against any peer: each beat crosses the bus exactly once and in
  order with every field as the command has it, a command ends just when the peer has done its part, and
  any run against a memory that stalls at will is a run of a plain sequential memory. The single-beat master and the memory model wired to each other refine a byte-masked word memory.
- **The upload path** (`PolledUart.dfy`, `IhexRecords.dfy`, `UploadHost.dfy`, `Uploader.dfy`). A polled UART
  with a 256-slot ring, a line reader, and the XON/XOFF loop against a host; no byte is lost before the last
  drain when the host keeps to its credit, the decoder gets the host's lines in order, everything printed is
  known, and the second core is released only over a complete, error-free image, and always when bytes keep
  moving and the stream ends without an error.
- **The SD card driver** (`SdProtocol.dfy`, `SdTranscript.dfy`, `SdCard.dfy`, `SdCommands.dfy`). The whole
  transcript of every run, exchange by exchange, whatever the card answers; what a card recovers from it;
  exactly what each result means; clock and length bounds.
- **The build file scripts** (`BuildText.dfy`, `BuildPatterns.dfy`, `BuildTargets.dfy`, `BuildFiles.dfy`,
  `BuildTwice.dfy`, `BuildCheck.dfy`). The rewriter on concrete text with its patterns as functions, what
  they match and what becomes of every line by its place in the file; exactly when running it twice is
  running it once, by a simulation between the two runs; what the validator reports of its output, exactly.
- **The memory tests** (`MemoryTests.dfy`). What they can tell about an arbitrary address decoder, exactly.
- **The memory image converter** (`BinToMemh.dfy`). The text holds the input however it is chunked, and when
  the chunking shows in it.

Code that changes state is a class or a method with the same loops, proved against functions; the laws are
lemmas about those functions. So that a mistake shared by a loop and its function can not hide, what goes
over a wire or into a file is stated a second time without those functions: as numbers at positions of the
bits, beats, bytes and characters, or as concatenations of text. `Wrappers.dfy` and `Common.dfy` hold what several models share.

## How things are modelled

- *Time* in `SerialLine` is an integer count of the simulator's time unit. A process that wakes from
  `wait for` reads the wire before what is assigned at that same instant, one delta cycle later, takes
  effect. A half period of zero is a delta cycle. This decides the ends of the window: for an even receiver
  period R and sender period T it is 18T < 19R and 17R <= 18T. The wire has two levels.
- *Runs end.* Where a process waits for something outside, the run under study is a finite script (rising
  edges, status reads, chunks read) and operations say whether they came to their end (`more`, `live`,
  `going`); every claim is for all scripts.
- *A peer of a burst master* is the sequence of what it shows at each edge, so every peer, reactive or not,
  is covered. `tl_c_master` and `tl_uh_master` run the same process over records with 16 and 4 data fields;
  the model is over any positive number. A burst longer than the record repeats its last field, as the
  signal keeps its last value. What an atomic request makes of a memory's words is any function. The write
  address advances by 4 with each beat, as the code does it; section 4.1 of the SiFive TileLink Specification
  1.8.1 gives the flow control rules.
- *The host of the upload* has credit for one line from the prompt and for one from each XON. A line of at
  most 255 bytes that ends in its only newline is what it may send for it. `Behaved` says that it does; the
  other claims hold for any host. Completion is claimed for an `Eager` script, in which between any two status
  reads a byte arrives if there is one to send and one goes out. The Intel HEX decoder is an arbitrary
  function from the lines so far to the records they give rise to.
- *The bytes an SD card gives back* and the time each exchange keeps the device busy are arbitrary functions.
  Writing a register while the device is busy is excluded by the device's own preconditions, so no run does.
- *A memory under test* is cells behind an arbitrary decoder; a cell may also give back something else than
  what was stored.

Where code and comments disagree the model follows the code: the bank test writes `0x5AFE0000 + i`, not the
`0xCAFE0000 + i` of its header comment (`bin/noelv_memtest1g/main.S:14`); index 0 of what `send_bits` sends
is the start bit, not the stop bit (`testing/uart.pkg.vhdl:69-71`); the bytes of a record with a wrong
checksum are in memory before the loader stops (`lib/ihex/ihex.cc:22-42`).

Two facts about the code that the model makes visible. The drain loop of the uploader reads the data register,
so the bytes that have come by then or come meanwhile go unread (`bin/noelv_serv_upload/main.cc:84`); lemma
`UploadHost.DrainLoses` accounts for them. A rewritten `standard` line whose text has unbalanced parentheses can
make a second run of the rewriter differ from the first (`fix_standards.py:35-48`): it does on the files of
`BuildTwice.UnbalancedNotAgain`, it does not on those of `BuildTwice.UnbalancedAgain`, and
`BuildTwice.IdempotentIff` says which.

## Model

| member | source | states |
|---|---|---|
| SerialLine.Sender.SendBits | testing/uart.pkg.vhdl:63-80 | the assignments to tx are exactly one frame, one level per period from the time of the call, and the clock ends 11 periods on for a byte |
| SerialLine.Sender.SendString | testing/uart.pkg.vhdl:106-115 | the whole transmission is 12 assignments for each character, every character 13 periods T after the one before: for character k an idle level at 13kT, the start bit at 13kT + T, bit i, whose weight is 2^i, at 13kT + (i + 2)T, the stop bit and the idle level after it |
| SerialLine.RcvBits | testing/uart.pkg.vhdl:82-104 | what is received is the wire sampled at whole periods from half a period after the first falling edge, or from the next one if the line was high there; it waits for ever just when nothing can be so received |
| SerialLine.ReceivesIff | testing/uart.pkg.vhdl:82-104 | a reception is what the receiver yields if and only if the assignments on the wire give it: the first falling edge, the glitch test, every sample and the stop sample |
| SerialLine.RcvString | testing/uart.pkg.vhdl:117-132 | there are receptions, each from where the one before ended, that explain the outcome: characters up to the first line feed, 10, filled up with blanks, 32, and as many errors as stop bits missing; or one character too many for the range; or still waiting |
| SerialLine.OutcomeExplained | testing/uart.pkg.vhdl:117-132 | every run of the string receiver, from any point, is explained by receptions one after the other |
| SerialLine.LevelAt | testing/uart.pkg.vhdl:97-98 | the level a receiver reads is the last one assigned before that instant, whatever is assigned later |
| SerialLine.SkipQuiet | testing/uart.pkg.vhdl:89-95 | a wait for the start bit skips everything that does not fall |
| SerialLine.BitsAt | testing/uart.pkg.vhdl:75-79 | bit i of what is sent for a number is its bit of weight 2^i |
| SerialLine.TransmissionSent | testing/uart.pkg.vhdl:106-115 | every assignment of a transmission, instant and level, from its place in it |
| SerialLine.BitsRoundTrip | testing/uart.pkg.vhdl:111-127 | the bits sent make up the same number again |
| SerialLine.CharRoundTrip | testing/uart.pkg.vhdl:111-127 | every character survives being taken apart into 8 bits |
| SerialLine.EvenWindow | testing/uart.pkg.vhdl:91-101 | for an even receiver period the window is 18T < 19R and 17R <= 18T |
| SerialLine.SamplesInside | testing/uart.pkg.vhdl:91-101 | inside the window each sample point lies in its own bit and the receiver is done before the next frame |
| SerialLine.FrameReceived | testing/uart.pkg.vhdl:74-104 | inside the window one frame is received bit for bit with its stop bit, whatever is on the wire before and after |
| SerialLine.CharReceived | testing/uart.pkg.vhdl:126-129 | one turn of the receiving loop takes exactly the next character sent |
| SerialLine.StringReceived | testing/uart.pkg.vhdl:106-132 | each start edge resynchronises: from any point between frames the rest of the text arrives whole, however long |
| SerialLine.StringRoundTrip | testing/uart.pkg.vhdl:106-132 | every line sent is returned by the receiver if it fits the caller's range, with no stop bit missing, and ends out of range if not |
| SerialLine.ZeroMissedOutside | testing/uart.pkg.vhdl:82-104 | outside the window the byte 0 is never received correctly |
| SerialLine.WindowIsExact | testing/uart.pkg.vhdl:63-104 | the window holds if and only if every byte sent at any time to a waiting receiver arrives intact |
| BurstCommands.TotalBeats | testing/tl_c_master.ent.vhdl:41-49 | the number of 32-bit beats is one up to 4 bytes and 2^size bytes in all above |
| BurstFields.BeatsOf | testing/tl_c_master.ent.vhdl:41-49 | that is 1, 1, 1, 2, 4, 8, 16 and 32 beats |
| BurstFields.BeatAsks | testing/tl_c_master.ent.vhdl:72-177 | every field of the i-th request: of a write opcode 0 if all four lanes are selected and 1 if not, param 0, address (adr + 4i) mod 2^32 and data field min(i, last); of a read opcode 4; of an atomic its own opcode and param with dat0; size and mask of the command always |
| BurstFields.CommandFields | testing/tl_c_master.ent.vhdl:72-190 | against any peer the i-th request accepted has the fields of request i, and requests and responses are as many as the peer was ready and valid until all are through |
| BurstFields.WaveCarriesOut | testing/tl_c_master.ent.vhdl:72-190 | what the port shows at each edge of a command, by the edges before it at which the peer was ready or valid, and that it is over just when all are through |
| BurstFields.FinishedAnswers | testing/tl_c_master.ent.vhdl:100-124 | a finished command took just the responses due to it and they are in its data fields in order |
| BurstMaster.Master.Get | testing/tl_c_master.ent.vhdl:72-133 | against any peer the port shows the one request, with all its fields, until it is taken, and readiness until all responses came, at which the branch ends; the k-th response taken is in the k-th data field |
| BurstMaster.Master.GetTurn | testing/tl_c_master.ent.vhdl:94-124 | one edge of the response loop keeps port, counts and data fields what the peer's behaviour so far demands |
| BurstMaster.Master.AcceptTurn | testing/tl_c_master.ent.vhdl:127-133 | one edge of the wait for the request to be taken keeps the same, and takes no further response |
| BurstMaster.Master.PutTurn | testing/tl_c_master.ent.vhdl:154-190 | one edge of the write loop: the beat, its address and the acknowledgement advance just as the peer was ready and valid |
| BurstMaster.Master.Drive | testing/tl_c_master.ent.vhdl:155-177 | what a turn of the write loop puts on channel A is the beat that is due, or nothing after the last |
| BurstMaster.Master.Put | testing/tl_c_master.ent.vhdl:135-190 | against any peer the port shows beat after beat, opcode 0 or 1 by the lanes and every other field too, each until it is taken; the branch ends just when all were taken and a response came, and then that many requests and one response have crossed the bus |
| BurstMaster.Master.Execute | testing/tl_uh_master.ent.vhdl:67-167 | both branches, for any number of data fields: the port at each edge, the end and the reply of one command |
| BurstMaster.Master.P0 | testing/tl_c_master.ent.vhdl:51-215 | a whole run against any peer: silence for the idle time and one edge, then the first request of the command, the port at each edge until the first at which it is done, its reply from the responses taken meanwhile, and so on; every command in order, the last one perhaps under way |
| BurstCommands.DurationBounds | testing/tl_c_master.ent.vhdl:94-190 | a command is not over at any edge before its duration and is over at it |
| BurstLaws.CommandHandshakes | testing/tl_c_master.ent.vhdl:72-190 | whatever the peer does, the requests accepted are the command's beats in order and each once, as many as the peer was ready for, and the responses taken are the first ones due |
| BurstLaws.CompletesIff | testing/tl_c_master.ent.vhdl:94-190 | a command ends if and only if the peer is ready once per beat and gives every response, at the first edge at which both are so, and stays over |
| BurstLaws.SessionHandshakes | testing/tl_c_master.ent.vhdl:65-215 | over any run each command replied to has put all its beats on the bus exactly once and in order, the one under way only its first ones, and the replies are the responses dealt out in order |
| BurstMemory.MemoryConserves | testing/tl_c_master.ent.vhdl:94-190 | conservation at a stalling memory: what the accepted requests call for is what was taken and what is still owed |
| BurstMemory.CommandRefines | testing/tl_c_master.ent.vhdl:72-190 | one command, atomics included, against a memory stalling in any way changes its words and is answered as by a sequential memory |
| BurstMemory.SessionRefines | testing/tl_c_master.ent.vhdl:65-215 | refinement over whole runs, atomics included: the replies are those of the sequential memory, and at the end the memories agree |
| BurstMessages.Encode | testing/tl_c_pkg.pkg.vhdl:213-240 | the 23 items of the message by their places: address, dat0 to dat15, lanes, size, the two flags, opcode, param |
| BurstMessages.Decode | testing/tl_c_pkg.pkg.vhdl:184-211 | they are popped from the same places until the message is empty |
| BurstMessages.MessageRoundTrip | testing/tl_c_pkg.pkg.vhdl:184-240 | every command survives being encoded and decoded |
| BurstMessages.WriteBurst64B | testing/tl_c_pkg.pkg.vhdl:461-495 | the message sent is a 64-byte write that is not atomic, and bit i of its data field k is bit 32k + i |
| BurstMessages.ReadBurst64B | testing/tl_c_pkg.pkg.vhdl:509-518 | the message sent is a 64-byte read that is not atomic |
| BurstMessages.ReadValue | testing/tl_c_pkg.pkg.vhdl:519-536 | bit 32k + i of the value is bit i of data field k of the reply |
| BurstMessages.SlicesJoined | testing/tl_c_pkg.pkg.vhdl:473-536 | a vector cut into 32-bit fields and joined again is the same vector |
| BurstMessages.WrittenAt | testing/tl_c_master.ent.vhdl:154-184 | after a write burst each of its words holds what its own beat made of it, as no other beat goes there even around the end of the address space |
| BurstMessages.ReadAfterWrite | testing/tl_c_pkg.pkg.vhdl:461-537 | in the sequential memory the read gives the written bits in the selected lanes and the former ones in the others |
| BurstMessages.BurstRoundTrip | testing/tl_c_pkg.pkg.vhdl:461-537 | a 64-byte write then a 64-byte read of any address, through messages, master and a memory stalling in any way, returns the same 512 bits |
| LiteBus.MaskedValue | testing/tllite_mem.ent.vhdl:47-55 | exactly the bytes whose lane is selected are kept, the others are zero |
| LiteBus.Memory.constructor | testing/tllite_mem.ent.vhdl:38-43 | at the start all words are zero and the memory is ready |
| LiteBus.Index | testing/tllite_mem.ent.vhdl:81-82 | the word an address selects is the one its offset from the base lies in, around the size of the memory |
| LiteBus.Memory.RisingEdge | testing/tllite_mem.ent.vhdl:61-104 | one edge: a request is taken just when ready was shown, opcode 4 fetches the word its address lies in and answers with opcode 1, any other merges the selected lanes into it and answers with 0; valid and ready change as handshakes demand |
| LiteBus.WordsAreLastWritten | testing/tllite_mem.ent.vhdl:81-95 | each bit of the sequential memory is the one last written to it, or zero |
| LiteBus.LastWrittenIsSet | testing/tllite_mem.ent.vhdl:81-95 | that is by the last write to an address in the same word, around the size of the memory, with the lane selected |
| LiteBus.System.WaitEdge | testing/tllite_mem.ent.vhdl:58-104 | one edge of the closed system; ready stays the negation of valid |
| LiteBus.System.Idle | testing/tllite.ent.vhdl:47-51 | while no command comes nothing crosses the bus and no response waits |
| LiteBus.System.Perform | testing/tllite.ent.vhdl:51-106 | a command is over two edges after it is driven, its request and one response cross the bus once, and no stale response is left |
| LiteBus.System.P0 | testing/tllite.ent.vhdl:37-108 | over every command sequence and all gaps: a read returns each bit as last written to an address in the same word, around the size of the memory, or zero, and a write to any other word leaves it alone; the k-th request has opcode, size, address, lanes and data of the k-th command; each command takes three edges |
| PolledUart.Device.Pass | lib/uart/uart.cc:25-28 | between two status reads bytes move as the script says, in order and within the host's credit |
| PolledUart.Device.RawRead | lib/uart/uart.cc:16-28 | a read gives the oldest byte and takes it, the status bits say what the FIFOs hold, and nothing else changes than what the script moved |
| PolledUart.Device.RawWrite | lib/uart/uart.cc:30-32 | only into a FIFO with room; the byte is appended to the output |
| PolledUart.CreditsAppend | bin/noelv_serv_upload/main.cc:49-65 | more output never takes back the host's credit, adds one for each XON in it, and at most one more, once, for the prompt |
| PolledUart.RingPush | lib/uart/uart.cc:59-63 | a byte stashed is the last of the ring, and the 256th makes it look empty |
| PolledUart.RingPop | lib/uart/uart.cc:68-72 | the byte taken is the oldest in the ring, also around its end |
| PolledUart.BalancedRead | lib/uart/uart.cc:54-82 | moving a byte out of the receive FIFO keeps delivered, stashed and waiting bytes what arrived, and the 256th stashed loses exactly 256 |
| PolledUart.BalancedTake | lib/uart/uart.cc:68-72 | taking a byte from the ring keeps the balance |
| PolledUart.UartBuf.Stash | lib/uart/uart.cc:59-63 | the ring after one more byte |
| PolledUart.UartBuf.CanWrite | lib/uart/uart.cc:54-65 | true only if there is room; a byte that came with the status is in the ring; nothing is lost unless 255 were stashed |
| PolledUart.UartBuf.GetAsync | lib/uart/uart.cc:67-82 | at most one byte is delivered, in the order of arrival, ring before FIFO; one is if the host has credit left and bytes move |
| PolledUart.UartBuf.PutAsync | lib/uart/uart.cc:84-91 | the byte is written just when the call says so, never to a full FIFO |
| PolledUart.UartBuf.Put | lib/uart/uart.cc:93-99 | exactly this byte goes out, once, however long there is no room, and after one read if bytes move |
| PolledUart.UartBuf.Get | lib/uart/uart.cc:101-104 | exactly one byte is delivered, the next that arrived |
| PolledUart.UartBuf.WaitAvailable | lib/uart/uart.cc:178-180 | at the end there is room, and nothing was written |
| PolledUart.UartBuf.Print | lib/uart/uart.cc:182-189 | the whole text goes out; if the credit it gives fits the ring nothing overflows |
| PolledUart.UartBuf.Getline | lib/uart/uart.cc:156-176 | true just when a newline is among the first n-1 bytes, with that line and a NUL in the buffer; else exactly n bytes are consumed and n-1 kept; nothing past n bytes is written; a line that is due is read in no more reads than it has bytes |
| PolledUart.UartBuf.Calls | lib/uart/uart.cc:109-180 | any interleaving of calls with arriving bytes: output is the bytes put, and delivered, ring and FIFO together are what arrived |
| IhexRecords.StoredAt | lib/ihex/ihex.cc:18-24 | after a record an address holds the record's byte for it, or what it held |
| IhexRecords.OverlaidAt | lib/ihex/ihex.cc:16-24 | after records laid over each other an address holds what the last record covering it says |
| IhexRecords.OverlaidComesFrom | lib/ihex/ihex.cc:16-24 | every address holds the last byte of the last record that has one for it, byte i of a record going to its address plus i around 2^32, or what was there |
| IhexRecords.HexSpells | lib/ihex/ihex.cc:19-21 | the address is printed as eight hexadecimal digits, the j-th the value n / 16^(7 - j) mod 16 |
| IhexRecords.DecimalSpells | lib/ihex/ihex.cc:39-40 | numbers are printed with all their decimal digits, highest first, and no zero in front |
| IhexRecords.RecordTextIs | lib/ihex/ihex.cc:16-38 | character by character what a record prints, by the dots on the line and with the line break after the fortieth, and the dots then |
| IhexRecords.ErrorTextIs | lib/ihex/ihex.cc:39-40 | the message on a checksum error with both its numbers in decimal |
| IhexRecords.UpToNulIs | bin/noelv_serv_upload/main.cc:71 | what is decoded of a line is everything before its first NUL |
| UploadHost.TakesLine | lib/uart/uart.cc:160-168 | reading up to a newline takes a line whole and nothing of the next, and a line of at most 255 bytes always ends in time |
| UploadHost.TakesNextLine | bin/noelv_serv_upload/main.cc:59-71 | what the reader takes after k lines is the host's line k |
| Uploader.Loader.CreditFits | bin/noelv_serv_upload/main.cc:60-65 | one credit more than lines taken is at most 255 bytes on their way |
| Uploader.Loader.SendXon | bin/noelv_serv_upload/main.cc:61 | a byte 0x11 is sent and gives one credit, and nothing overflows while it waits for room |
| Uploader.Loader.SendXoff | bin/noelv_serv_upload/main.cc:65 | a byte 0x13 is sent and gives none |
| Uploader.Loader.StoreBytes | lib/ihex/ihex.cc:18-24 | memory stays the overlay of the records reported |
| Uploader.Loader.DataRecord | lib/ihex/ihex.cc:16-30 | the record is in memory, and just the eight digits of its address with a colon and a blank if it begins a line, a dot, and a line break after the fortieth are printed |
| Uploader.Loader.EofRecord | lib/ihex/ihex.cc:31-38 | the end is noted just when an end record has been reported; the line of dots is ended, EOF printed and the dots are counted from 0 |
| Uploader.Loader.IhexDataRead | lib/ihex/ihex.cc:13-45 | a record is reported once with its text printed; the callback does not come back from one with a checksum error, after the message with line and type; the line count grows by one |
| Uploader.Loader.Report | bin/noelv_serv_upload/main.cc:71-73 | the records of a line are reported and their text printed in order; it fails to come back only if the script ends or one had an error, and then the last words are the message with the number of that record, counted from 1, and its type |
| Uploader.Loader.TakeLine | bin/noelv_serv_upload/main.cc:64-71 | against a host that behaves the line reader succeeds with the host's next line, and it does come if bytes move |
| Uploader.Loader.Greet | bin/noelv_serv_upload/main.cc:49-50 | exactly the greeting and the prompt are out, for any host; nothing is lost even if the first line arrives while the CR LF of the prompt is still being printed |
| Uploader.Loader.Turn | bin/noelv_serv_upload/main.cc:59-72 | one turn: XON except at first, a line, XOFF, then the text of its records and nothing else; lines stay in order; it stops the program only at a host that breaks its lines or a checksum error |
| Uploader.Loader.TranscriptThrottled | bin/noelv_serv_upload/main.cc:49-72 | the output after any number of lines: the greeting character by character, then a 0x13 for each line, the first at once and every other just after a 0x11, and no other 0x11 or 0x13 |
| Uploader.Loader.FarewellThrottled | bin/noelv_serv_upload/main.cc:49-77 | the same of the whole output at the release, which ends with a last 0x11 and the message |
| Uploader.Loader.Complain | bin/noelv_serv_upload/main.cc:66-70 | a failed line is answered with XON and the message |
| UploadHost.DrainLoses | bin/noelv_serv_upload/main.cc:84 | the bytes received before and during the drain are those its reads took and those left, and none is lost if and only if none was waiting and none came |
| UploadHost.DrainLosesOne | bin/noelv_serv_upload/main.cc:84 | a script in which a byte is lost |
| UploadHost.DrainEnds | bin/noelv_serv_upload/main.cc:84 | the wait fails to end only if the script does, and ends within as many reads as there are bytes if they move |
| Uploader.Loader.AwaitDrained | bin/noelv_serv_upload/main.cc:83-84 | the loop leaves the port and the number of reads as the drain function says |
| Uploader.Loader.Handoff | bin/noelv_serv_upload/main.cc:79-99 | the release register is written only with the transmit FIFO empty, with the two values in order, always if bytes move; and which received bytes are lost |
| Uploader.Loader.WritePercontrol | bin/noelv_serv_upload/main.cc:90-99 | no write unless an end record was reported, no record had an error and memory is the overlay |
| Uploader.Loader.Finish | bin/noelv_serv_upload/main.cc:73-99 | the records of the end of the stream, XON and the last message are printed, then the handoff; it stops only at a checksum error |
| Uploader.Loader.Upload | bin/noelv_serv_upload/main.cc:46-103 | whole runs: the lines decoded are the host's in order and nothing before the drain was lost; memory is always what the records reported say address by address; the register gets 3 and then 7 or nothing; if it does, all records due were reported with an end and no error, and the whole output is as given, throttled line by line; if the host behaves it stops short only with the message on a checksum error as its last words; and if bytes move and the stream ends without an error, the core is released after exactly the lines up to the end |
| SdCard.Device.WriteData | lib/sdcard.h:67-76 | an exchange starts only when the device is not busy and is on record with the chip select of the moment |
| SdCard.Driver.Transfer | lib/sdcard.h:66-77 | exactly one byte is exchanged and the one given back returned, however long the device is busy |
| SdCard.Driver.Select | lib/sdcard.h:79-85 | selected, divider kept, nothing exchanged |
| SdCard.Driver.Deselect | lib/sdcard.h:87-94 | deselected, divider kept, one more byte of clocks |
| SdCard.Driver.SendCommand | lib/sdcard.h:96-113 | exactly the seven bytes and the polls go out, and the result is the first answer with bit 7 clear among 10, or -1 |
| SdProtocol.R1Iff | lib/sdcard.h:106-112 | the result is r if and only if the first byte with bit 7 clear is among those polled and is r |
| SdTranscript.SentIs | lib/sdcard.h:96-113 | a command in the transcript, exchange by exchange: the seven bytes with the argument's highest byte first, then 0xFF until the first answer with bit 7 clear or ten times |
| SdCard.Driver.AwaitReady | lib/sdcard.h:142-155 | exactly the pairs up to the first ACMD41 answered with 0 are sent, or 10000, and no retry is left just when none was |
| SdProtocol.ReadyIff | lib/sdcard.h:143-155 | the card becomes ready within the tries if and only if one of those ACMD41s answers 0, and the last pair sent is the first such one |
| SdTranscript.PairsAre | lib/sdcard.h:142-155 | pairs of CMD55 and ACMD41, one after the other, all but the last not answered 0, at most 10000 |
| SdTranscript.InitIs | lib/sdcard.h:115-164 | every initialization, exchange by exchange, with its result read off the answers |
| SdProtocol.TokenIff | lib/sdcard.h:177-189 | the token is missed if and only if it is none of the bytes read, and otherwise found at its first place |
| SdTranscript.ReadIs | lib/sdcard.h:166-202 | every read, exchange by exchange, with its result and the data read off what came back |
| SdCard.Driver.AwaitToken | lib/sdcard.h:177-184 | bytes are read up to the token or the tries, and none is left just when it did not come |
| SdCard.Driver.Fetch | lib/sdcard.h:191-194 | the first 512 bytes of the buffer are those the card gives from here on, the rest is untouched |
| SdCard.Driver.Init | lib/sdcard.h:115-164 | the whole transcript read off exchange by exchange, for every card: ten 0xFF deselected, CMD0, CMD8 with four bytes more if it is answered 1, the pairs, one 0xFF deselected, and the result these mean; divider 2 on success and 100 otherwise |
| SdCard.Driver.ReadBlock | lib/sdcard.h:166-202 | the whole transcript read off exchange by exchange, for every card, null buffer included: CMD17, the wait for 0xFE, 512 bytes that are those in the buffer, two more; untouched on every failure and beyond the 512 bytes |
| SdCommands.SeenSession | lib/sdcard.h:79-94 | of one selection a card sees the bytes sent between and nothing of the clocks after |
| SdCommands.ParseSent | lib/sdcard.h:96-113 | a card recovers a command with its whole argument from the bytes of SendCommand and skips the polls |
| SdCommands.InitCommands | lib/sdcard.h:126-155 | a card recovers from Init CMD0, then CMD8 with 0x1AA and between 1 and 10000 pairs of CMD55 and ACMD41, and nothing else |
| SdCommands.ReadCommands | lib/sdcard.h:170-201 | a card recovers from ReadBlock one CMD17 with the block number |
| SdCommands.WireBounds | lib/sdcard.h:115-202 | 80 clocks before the first selection, both operations end deselected with one more byte, at most 340049 and 10532 exchanges |
| SdCommands.InitMeaning | lib/sdcard.h:128-163 | Init gives -1, 0 or -2 if and only if the card does not go idle, some ACMD41 within 10000 answers 0, or all fail |
| SdCommands.ReadMeaning | lib/sdcard.h:172-189 | ReadBlock succeeds if and only if the first clear byte within 10 is 0 and the token comes within 10000, and the data starts right after the first token |
| BuildText.SplitJoin | fix_standards.py:13-80 | lines joined and split again are the same lines |
| BuildPatterns.SplitIs | fix_standards.py:13 | the lines joined give the text again, there is one more than newlines in it, and none is in a line |
| BuildPatterns.NetIs | fix_standards.py:29-35 | the level of a line is its opening less its closing parentheses, counted |
| BuildPatterns.HeaderIff | fix_standards.py:25 | a line opens a target if and only if it is one of the three rule names, white space or none, an opening parenthesis and anything |
| BuildPatterns.Vhdl1993Iff | fix_standards.py:38 | a line is dropped if and only if it is vhdl1993 = True with white space anywhere between and around and perhaps a comma |
| BuildPatterns.StandardIff | fix_standards.py:42-45 | a line is rewritten with this indentation and comma if and only if it is made of them, standard, an equals sign, something in quotes and white space |
| BuildPatterns.LoneCloseIff | fix_standards.py:22-64 | a line is a lone close if and only if it is a closing parenthesis between white space |
| BuildPatterns.Standard2019Iff | validate.py:33 | the validator sees the standard if and only if the line begins with it set to "2019" |
| BuildPatterns.NameIff | validate.py:29-31 | the validator reads a name if and only if it is what stands between the first two quotes after name and an equals sign |
| BuildTargets.OpenOnce | fix_standards.py:25-35 | at most one target is open at a line |
| BuildTargets.TargetGetsStandard | fix_standards.py:35-73 | every closed target: its own lines that set the standard set it to 2019 in what is put out, and if it has none such a line is put in before a closing parenthesis alone on its line, and only there |
| BuildText.RewrittenAgain | fix_standards.py:42-45 | a rewritten line matches the rewriter's pattern with the same parts and the validator's pattern |
| BuildText.Vhdl1993Net | fix_standards.py:35-39 | a dropped line opens and closes no parenthesis |
| BuildFiles.ProcessFile | fix_standards.py:5-80 | each line of the file becomes what its place calls for: outside targets itself; in the target open there nothing if it sets vhdl1993, the standard 2019 with its own indentation and comma if it sets it, a standard line guessed from the last one and itself if it closes a target without one alone, and itself otherwise |
| BuildFiles.StepDescribed | fix_standards.py:21-77 | before each line the loop's three variables are those of the target open there, and what is put out is what the place calls for |
| BuildFiles.SplitProcessed | fix_standards.py:13-80 | the lines of a processed file are exactly those put out |
| BuildTwice.StepAgain | fix_standards.py:21-77 | one step of the simulation: what a line becomes is left alone by a run in the same state, and the states agree after it if and only if a rewritten line is balanced |
| BuildTwice.RunAgain | fix_standards.py:21-77 | from equal states on balanced lines a second run changes nothing and sees the same lines outside targets |
| BuildTwice.AgreeIff | fix_standards.py:21-77 | the two runs agree on their state after every line if and only if every rewritten line is balanced |
| BuildTwice.RunCounts | fix_standards.py:37-77 | no run puts out more lines that set vhdl1993 than it reads, and if as many no fewer lines in all |
| BuildTwice.SettledIff | fix_standards.py:21-77 | from any state a run changes nothing if and only if it has nothing to drop, rewrite or put in at any line |
| BuildTwice.HarmlessIff | fix_standards.py:21-77 | a run in any state has nothing to do on what another puts out if and only if it has nothing to do at the lines the other leaves as they are |
| BuildTwice.IdempotentIff | fix_standards.py:5-80 | for every file: processing it twice is processing it once if and only if one scan of it with the states of both runs finds every line left alone by the first to be left alone by the second |
| BuildTwice.BalancedHarmless | fix_standards.py:21-77 | balanced lines meet that condition |
| BuildTwice.ProcessedAgain | fix_standards.py:5-80 | so if every rewritten line is balanced, processing twice is processing once, and lines outside targets are unchanged |
| BuildTwice.UnbalancedAgain | fix_standards.py:42-48 | a family of files with an unbalanced standard on which a second run changes nothing |
| BuildTwice.UnbalancedNotAgain | fix_standards.py:35-48 | a family of files with an unbalanced standard on which the second run drops a line the first kept |
| BuildTwice.NotProcessedAgain | fix_standards.py:5-80 | one file text that processing twice makes different from processing once |
| BuildCheck.ReportMissing | validate.py:14-39 | a name is reported at each line that closes a target in which no line sets the standard to 2019: the last name given in any target so far |
| BuildCheck.StepDescribed | validate.py:20-39 | before each line the variables are those of the last header still open there and of the last name |
| BuildCheck.StepReported | validate.py:20-39 | where the validator is and what it reports after what the rewriter makes of a line, from any two states |
| BuildCheck.RunReported | validate.py:20-39 | over all that is put out it reports just what one scan of the input with both states finds |
| BuildCheck.ProcessedReported | validate.py:14-39 | for every file: of the processed file exactly those names are reported |
| BuildCheck.ProcessedChecked | validate.py:14-39 | where both scripts see the same targets (no header inside an open one, balanced rewritten lines) these are the targets that have no line setting a standard and close otherwise than with a lone parenthesis |
| BuildCheck.NothingReported | fix_standards.py:50-73 | so if there every target closes with a lone parenthesis nothing is reported |
| MemoryTests.WordTest | bin/noelv_memtest/main.S:35-71 | for any decoder and any cells the report is the first word that does not give back its address, or OK |
| MemoryTests.WordPoints | bin/noelv_memtest/main.S:26-40 | the points of the word test are the words from 0x80000 up to 0x92000 in ascending order with their own addresses |
| MemoryTests.BankTest | bin/noelv_memtest1g/main.S:41-61 | the same for one word in each of the eight banks, with the number of the bank and both values |
| MemoryTests.BankPoints | bin/noelv_memtest1g/main.S:40-51 | the points of the bank test are 1 MB into each of the eight 128 MB, with 0x5AFE0000 and the number of the bank |
| MemoryTests.MarchTest | bin/noelv_memtest1g/main.S:66-78 | the same for the 128 points of the march |
| MemoryTests.MarchPoints | bin/noelv_memtest1g/main.S:66-78 | the points of the march are 1 MB into each 8 MB below 1 GB in ascending order with their own addresses |
| MemoryTests.GigTest | bin/noelv_memtest1g/main.S:39-87 | the bank test, then the march, and the number of points counted |
| MemoryTests.WrittenAt | bin/noelv_memtest/main.S:36-40 | after the write phase a cell holds the value of the last point that reaches it, or what it held |
| MemoryTests.VerifyMeaning | bin/noelv_memtest/main.S:43-47 | the verdict is a pass if and only if every point gives back its value, and otherwise names the first that does not |
| MemoryTests.VerifyIdeal | bin/noelv_memtest/main.S:35-47 | over ideal cells write-all-then-verify passes if and only if no two points share a cell, and otherwise names the first that shares one with a later point and gets the last one's value |
| MemoryTests.WordTestExact | bin/noelv_memtest/main.S:35-47 | the word test passes if and only if the decoder is injective on the range, and otherwise reports the lowest word shared with a later one |
| MemoryTests.GigTestExact | bin/noelv_memtest1g/main.S:39-87 | the 1 GB test passes if and only if neither two banks nor two points of the march share a cell |
| MemoryTests.BanksDetect | bin/noelv_memtest1g/main.S:39-62 | any decoder ignoring bit 27, 28 or 29 fails at bank 0 with the value of another bank |
| MemoryTests.MarchDetects | bin/noelv_memtest1g/main.S:66-78 | any decoder ignoring one of bits 23 to 29 fails the march at its first point |
| MemoryTests.GigNotices | bin/noelv_memtest1g/main.S:39-87 | of the address lines that may be missing the 1 GB test notices exactly 23 to 29 |
| MemoryTests.WordNotices | bin/noelv_memtest/main.S:35-47 | of the address lines that may be missing the word test notices exactly 2 to 16 |
| MemoryTests.Memtest.Test | lib/memtest/memtest.cc:15-41 | passes if and only if every cell gives back the pattern, so for every decoder over ideal cells; otherwise the first failing address with both values |
| BinToMemh.FormatLine | tools/bintomemh/main.go:45-64 | the line buffer of 12 bytes is never overrun and holds the line for up to four bytes |
| BinToMemh.FormatChunk | tools/bintomemh/main.go:45-65 | the text of a chunk, character by character: the two digits of each byte and a blank, or a newline after every fourth byte and after the last |
| BinToMemh.LinesSpell | tools/bintomemh/main.go:45-65 | the same of the lines of any chunk |
| BinToMemh.ReadAll | tools/bintomemh/main.go:41-74 | the read loop: the text of all chunks and the count of bytes still missing, or an error |
| BinToMemh.Pad | tools/bintomemh/main.go:75-79 | the padding loop adds exactly the bytes missing |
| BinToMemh.Convert | tools/bintomemh/main.go:31-81 | for every way a reader splits its input the output is a text spelling the bytes of each chunk in order, then a line 00 for each byte still missing; or an error |
| BinToMemh.ImageSpells | tools/bintomemh/main.go:31-81 | the same of the image of any chunks |
| BinToMemh.ParseLines | tools/bintomemh/main.go:45-65 | the pairs of a chunk's text are the bytes of the chunk |
| BinToMemh.ImageHolds | tools/bintomemh/main.go:31-81 | the pairs of the output are the input followed by max(0, byteCount - length) zeros, however it was chunked |
| BinToMemh.Broken | tools/bintomemh/main.go:45-49 | a chunk ending inside a line and followed by more bytes breaks that line |
| BinToMemh.TextIff | tools/bintomemh/main.go:41-67 | the text is that of one single chunk if and only if every chunk before the last nonempty one is a multiple of four bytes |
| BinToMemh.ImageIff | tools/bintomemh/main.go:31-81 | the same for the whole output with its padding |

## Left out

- BuildCheck.ProcessedChecked: for files the two scripts read alike; at a header inside an open target the validator starts over and the rewriter does not, and an unbalanced line puts their levels apart. `BuildCheck.ProcessedReported` has no such condition.
- BuildCheck.NothingReported: under the same condition.
- BuildTwice.ProcessedAgain: balance is enough and not needed; `BuildTwice.IdempotentIff` is exact.
- BurstMemory.CommandRefines: an atomic that carries the opcode of a Put is excluded, as a memory can not tell it from one.
- BurstMemory.SessionRefines: likewise.
- The Intel HEX decoder (`kk_ihex`) is not part of this model, nor is VUnit's message passing beyond the order of items.
- The status word of the UART is taken apart into what its bits 8, 10 and 11 and its low byte say (`lib/uart/uart.cc:16-22`, `bin/noelv_serv_upload/main.cc:34-36`).
- Channel D fields other than valid and data at a burst master; source, sink and corrupt are constant.
- Levels other than 0 and 1 on the serial line and on the bus, such as U and X.
- White space outside ASCII, line ends other than a newline, and walking directories, in the build scripts.
- What has been written when the converter's reader fails with an error; errors of writers.
- The delay loops of the uploader and the shift register behind the transmit FIFO.
- `Uart::Read` of `lib/uart.cc` never advances its end and is no queue; `TestWithC` of `lib/memtest/memtest.cc` returns the inverse of `TestOneCell`.
- `testing/wblite_mem.ent.vhdl` clears bytes that are not selected, so it keeps no byte lanes; `testing/wblite.ent.vhdl` adds nothing over `tllite`.
- Board wiring, device trees, other bare-metal probes, register wrappers and command lines: constants and single branches.
