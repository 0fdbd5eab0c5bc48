# A verified model of the DOE mailbox emulator and its relay

This project models, in Dafny, three connected parts of the remote root port tools.

1. **The DOE mailbox emulator** (`doe-emu.c`): a register device with a 68-dword request buffer that
   saturates, a response buffer read through an acknowledge-driven index, a status word, ABORT and GO
   bits, three protocol handlers that write their responses through a byte view of the dword buffer,
   and a main loop that detects the capability base with wrap-around 32-bit arithmetic.
2. **The relay** (`daemon-doe.c`, `thin-server.c`, `doe-emu.c`): three processes that exchange fixed-size
   records over byte streams with arbitrary partial reads and writes.
3. **The netlink daemon** (`daemon-doe-netlink.c`): the attribute walk, the response builder, and the loop
   that answers each accepted request.

## How the mailbox is modelled

There are three layers.

- `Emulator.Doe` is the object with its two arrays, updated in place. Each method is proved against a
  function of module `Mailbox`, including what is left behind in the buffers.
- `Mailbox.State` is the same object as a value. `Next` and `Reply` are one pass of the main loop;
  `Final` and `Replies` are whole runs, which end at a quit.
- `Device.Device` is what a host can observe: a capped request, the unread rest of a response, a status.
  `RunRefines` shows that the stored mailbox refines it on every run.

Properties of whole runs are stated on `Mailbox.Replies` and `Mailbox.Final` and proved through the
refinement. The protocol table is a parameter everywhere; `PROTOCOLS` is the compiled-in one.

Module `Reference` states the behaviour once more in plain numbers: which requests are answered, every answer
dword for dword, what each register and each CTRL bit does, how addresses decode, and the exchange that the source
documents. Its main laws are stated with literals instead of the model's constants, predicates and byte codec,
so they tie the definitions down independently.

Bit tests and shifts are written as arithmetic on bounded integers: `x & 0xFF` is `x % 0x100`, bit 31 of a
32-bit word is `x >= 0x8000_0000`, and `vid | type << 16` is a sum because the operands share no bits.

## How the relay is modelled

`Relay.Exec` performs one step of one process: one partial transfer of any size, or one local computation.
`Relay.Play` runs a schedule of such steps, in any interleaving. The reference is `DirectAnswers`, which
applies the ops one by one to the mailbox with no bytes, channels or packet numbers between.
`RelayCompletes` together with the step bound in `RelayRefinesDirect` gives total correctness: every
schedule is finite, and one that cannot go on has answered every op. `ScheduleCompletes` continues any schedule
to such an end.

`ThinServer.Serve` is the same lockstep as code: the server's and the emulator's methods on real buffers and
pipes, one pass after the other, proved to return the same reference answers.

The netlink loop talks to a `Remote`: a log of every op sent, the thin server that receives the records, and
the emulator behind its pipes. The emulator itself logs what it serves, so that an exchange outside the log is
ruled out.

## Where the code differs from what one might expect

- The file header of `doe-emu.c` announces Discovery only; the code also answers SPDM over CMA and Secured
  CMA, and the model follows the code.
- Discovery returns the next index in a fourth dword, not packed into the third as in section 6.30 of the
  PCI Express Base Specification r6.0. The model keeps the code's format.
- ABORT is a reset exactly when the same CTRL write does not also carry GO (`AbortIsReset`). With both bits
  GO finds an empty request and leaves ERROR in STATUS.
- Following the next index enumerates the table exactly when it has 1 to 256 entries (`EnumerationExact`).
  With more, the 8-bit index mask sends the host back to entry 0 for ever (`FollowWraps`). With none, a
  blank entry is reported.
- A refused request does not clear a leftover response, so ERROR can stand beside a response to read.
  After GO without ABORT this is so exactly when the request is refused and a response was there before
  (`ErrorBesideResponse`); `ErrorWitness` gives a run from power-up that gets there.
- ERROR can be cleared without ABORT. A step leaves ERROR exactly when it is an ABORT without GO, an answered
  GO, or a zero write to READ with at most one dword left (`ErrorEndsExactly`). Along any stream without CTRL
  writes STATUS stays ERROR exactly while fewer zero writes to READ were made than dwords are left over, at
  least one (`ErrorClearsWithoutAbort`).
- The netlink daemon keeps the attribute length in an `int`, so a length field of 0x80000014 or more rejects the
  message like one that leaves no attributes; every other length lets the walk begin (`LengthDecides`).

## Model

| member | source | states |
|---|---|---|
| `Words.BytesOfDwords` | doe-emu.c:169-171 | Viewing bytes as dwords and back is the identity |
| `Words.DwordsOfBytes` | doe-emu.c:195-196 | Viewing dwords as bytes and back is the identity, so the byte view determines the buffer |
| `Words.LittleEndian` | include/asm/byteorder.h:5 | The byte forms list the base-256 digits least significant first |
| `Words.ByteOfDwords` | doe-emu.c:169 | Byte i of the view is byte i modulo 4 of dword i divided by 4 |
| `Words.SpliceAt` | doe-emu.c:224 | A block copy changes exactly the positions of the block |
| `Protocol.PackRoundTrip` | doe-emu.c:167-178 | For every payload up to 264 bytes the payload dwords, read back as bytes, are the payload and fewer than four zero bytes |
| `Protocol.Pack` | doe-emu.c:167-178 | The object takes 2 plus the rounded-up quarter of the payload dwords, fits in 68, and dword 1 is its own length |
| `Protocol.EntryWordParts` | doe-emu.c:147-148 | Vendor and type can be read back from an advertised dword |
| `Protocol.Answer` | doe-emu.c:253-275 | Every answer has 3 to 68 dwords and describes its own length in dword 1 |
| `Protocol.AnswerMatchesRequest` | doe-emu.c:188-275 | Every answer belongs to the protocol that was asked; SPDM answers carry the paired response code and the right version, and ALGORITHMS its own length |
| `Protocol.AnswerFootprint` | doe-emu.c:131-275 | Requests that agree on length class, on the low 24 bits of dword 0 and on the low 8 (Discovery) or 16 (SPDM) bits of dword 2 get the same outcome and response |
| `Protocol.FootprintSuffices` | doe-emu.c:131-275 | The footprint in numbers: length under 2, exactly 2 or more, 24 bits of dword 0, and 8 or 16 bits of dword 2 |
| `Protocol.AnswerIgnoresTail` | doe-emu.c:322-323 | The saturation of the request buffer never changes an answer |
| `Mailbox.NextKeepsInvariant` | doe-emu.c:131-343 | Every transaction keeps the invariant on status, lengths, indices and the self-described response length |
| `Mailbox.RunKeepsInvariant` | doe-emu.c:389-442 | Every run keeps the invariant |
| `Mailbox.OneReplyEach` | doe-emu.c:393-441 | A run gives one reply for each transaction served before a quit |
| `Mailbox.EveryRun` | doe-emu.c:389-442 | In every state reachable from power-up STATUS is 0, 4 or 0x80000000, lengths and index are in range, STATUS 0 means no response, READY an unread one, and a stored response states its own length |
| `Mailbox.RunAppend` | doe-emu.c:393-441 | A run over a concatenated stream is the two runs one after the other |
| `Device.WriteRefines` | doe-emu.c:303-343 | Each register write acts on the live parts as the observable device does |
| `Device.NextRefines` | doe-emu.c:401-440 | One pass of the main loop refines one access of the observable device, with base detection |
| `Device.RunRefines` | doe-emu.c:389-442 | On every run each reply echoes its transaction and carries the observable device's value |
| `Device.Bisimulation` | doe-emu.c:110-122 | Mailboxes equal in their live parts answer every stream alike, whatever is stale in their buffers |
| `Properties.AbortIsReset` | doe-emu.c:306-318 | From any mailbox, ABORT makes all later replies those of a fresh device with the same base, if and only if GO is not set with it |
| `Properties.ShiftDecode` | doe-emu.c:401-421 | Truncation and wrap-around cancel: a shifted address decodes to the same register under the shifted base |
| `Properties.ShiftInvariance` | doe-emu.c:401-421 | Streams that differ by a constant modulo 2^64 in every address get the same replies |
| `Properties.WritesBeforeDetection` | doe-emu.c:404-415 | Writes before the first read are acknowledged with 0 and leave the mailbox as at power-up |
| `Properties.RequestIsHistory` | doe-emu.c:303-324 | The same as RequestHistory, on the observable device |
| `Properties.RequestHistory` | doe-emu.c:303-324 | At every point of every run the live request is the first 68 values written since the last CTRL write with GO or ABORT |
| `Properties.SilentExactly` | doe-emu.c:303-343 | The accesses classed as silent are exactly those that change no device |
| `Properties.Stuttering` | doe-emu.c:281-343 | Once the base is known, inserting or deleting silent transactions anywhere leaves all other replies unchanged |
| `Properties.SelectAppend` | doe-emu.c:393-441 | The mask of Stuttering keeps exactly the marked transactions |
| `Properties.InsertOne` | doe-emu.c:281-343 | A read, a write to no register or a non-zero write to READ, put anywhere into a stream, gets its own reply and changes no other |
| `Properties.GoFootprint` | doe-emu.c:253-275 | Two mailboxes with arbitrary pasts and requests of the same footprint both refuse, keeping what they had to read, or both hold the same response |
| `Properties.ErrorEndsExactly` | doe-emu.c:303-337 | A step leaves ERROR exactly when it is ABORT without GO, an answered GO, or a zero write to READ with at most one dword left |
| `Properties.ErrorBesideResponse` | doe-emu.c:253-275 | GO without ABORT leaves ERROR beside a response exactly when the request is refused and a response was there |
| `Properties.ErrorRun` | doe-emu.c:326-337 | The same as ErrorClearsWithoutAbort, on the observable device |
| `Properties.ErrorClearsWithoutAbort` | doe-emu.c:326-337 | From any mailbox in ERROR, along any stream without CTRL writes, STATUS stays ERROR exactly while there were fewer zero writes to READ than leftover dwords, at least one, and is 0 afterwards |
| `Properties.ErrorWitness` | doe-emu.c:253-337 | For every table and base, a run from power-up that ends in ERROR with a dword to read, and one zero write to READ later has STATUS 0 |
| `Exchange.SubmitAnswers` | doe-emu.c:303-324 | ABORT, a request of any length and GO leave exactly the answer, or ERROR and nothing to read |
| `Exchange.RoundsDrain` | doe-emu.c:281-337 | Alternating STATUS, READ and acknowledge returns a response in order, once each, and ends with STATUS 0 |
| `Exchange.ConversationShape` | doe-emu.c:471-502 | The accesses of a whole exchange, register by register |
| `Exchange.FullExchange` | doe-emu.c:131-343 | From any mailbox a whole exchange returns the handler's dwords in order; dword 1 counts the acknowledgements after which STATUS is 0 and READ is 0xFFFFFFFF |
| `Exchange.RefusedExchange` | doe-emu.c:253-275 | An exchange for a refused request ends with ERROR in STATUS and READ overrun |
| `Exchange.DiscoveryExchange` | doe-emu.c:131-161 | The entry and next index a host reads from the replies are those of the table |
| `Exchange.EnumerateFollows` | doe-emu.c:131-161 | Enumeration through complete mailbox exchanges is the walk over the table |
| `Exchange.FollowWraps` | doe-emu.c:138-139 | With more than 256 entries enumeration never ends and only repeats the first 256 |
| `Exchange.EnumerationExact` | doe-emu.c:100-161 | Enumeration visits every entry once, in order, and stops, if and only if the table has 1 to 256 entries |
| `Exchange.CompiledTable` | doe-emu.c:100-107 | Enumerating the compiled-in table gives its four entries in four exchanges and ends |
| `Reference.AnsweredExactly` | doe-emu.c:253-275 | A request is answered if and only if it has three dwords or more and its low 24 bits are 0x000001, 0x010001 or 0x020001 |
| `Reference.DiscoveryAnswer` | doe-emu.c:131-161 | Every Discovery answer, dword for dword, inside and past the table |
| `Reference.SpdmAnswer` | doe-emu.c:188-251 | Every SPDM answer over CMA and Secured CMA, dword for dword |
| `Reference.CtrlBits` | doe-emu.c:306-318 | Only bits 31 and 0 of a CTRL write count |
| `Reference.CtrlEffects` | doe-emu.c:306-318 | What the four combinations of the two bits do |
| `Reference.OtherWrites` | doe-emu.c:320-342 | What a write to any other register does |
| `Reference.Reads` | doe-emu.c:281-301 | What any register reads as |
| `Reference.ReplyFields` | doe-emu.c:424-438 | Every field of a reply |
| `Reference.QuitEndsRun` | doe-emu.c:396-399 | Bit 0 of control_status, and it alone, ends a run |
| `Reference.FirstReadFixesBase` | doe-emu.c:401-421 | Every register is decoded by its distance, modulo 2^32, from the first transaction that is not a write |
| `Reference.WriteBeforeBase` | doe-emu.c:404-415 | A write before that is skipped and leaves the base unknown |
| `Reference.DocumentedExchange` | doe-emu.c:471-502 | The exchange documented in the source, value for value, from power-up |
| `Emulator.StoreByte` | doe-emu.c:169-171 | A store through the byte pointer changes that byte of the view and no other |
| `Emulator.FinishedBuffer` | doe-emu.c:167-178 | A padded payload under the two header dwords is the old buffer with the object spliced in at the front |
| `Emulator.StoresVanish` | doe-emu.c:188-251 | Payload stores leave nothing outside the published object changed |
| `Emulator.Doe.constructor` | doe-emu.c:455 | The zeroed state |
| `Emulator.Doe.PutByte` | doe-emu.c:171 | One byte of the view changes |
| `Emulator.Doe.PutBytes` | doe-emu.c:235-241 | A block of the view is replaced and the header dwords are kept |
| `Emulator.Doe.PadPayload` | doe-emu.c:170-171 | The padding loop ends at the next dword boundary with zeros and changes nothing else |
| `Emulator.Doe.SpdmFinish` | doe-emu.c:167-178 | Publishes the packed form of the payload stored in the view, behind it the old buffer |
| `Emulator.Doe.SpdmError` | doe-emu.c:180-186 | Publishes the packed ERROR payload |
| `Emulator.Doe.SpdmVersion` | doe-emu.c:204-216 | Publishes the packed VERSION payload |
| `Emulator.Doe.SpdmCaps` | doe-emu.c:218-228 | Publishes the packed CAPABILITIES payload |
| `Emulator.Doe.SpdmAlgos` | doe-emu.c:230-245 | Publishes the packed ALGORITHMS payload |
| `Emulator.Doe.SpdmHandle` | doe-emu.c:188-251 | The outcome of an SPDM request, with the old buffer behind the response |
| `Emulator.Doe.HandleDiscovery` | doe-emu.c:131-161 | The outcome of a Discovery request, with the old buffer behind the response |
| `Emulator.Doe.Dispatch` | doe-emu.c:253-275 | The outcome of any request: a published answer, or ERROR and no other change |
| `Emulator.Doe.ReadRegister` | doe-emu.c:281-301 | The value read, with the object unchanged |
| `Emulator.Doe.WriteRegister` | doe-emu.c:303-343 | The whole new state after a register write |
| `Emulator.Doe.Serve` | doe-emu.c:401-440 | The whole new state and the reply for one transaction |
| `Emulator.Doe.Run` | doe-emu.c:389-442 | The loop gives the replies and final state of the run, and serves exactly the transactions before a quit |
| `Wire.OpRoundTrip` | include/linux/avery_doe.h:6-11 | The packed layout of an op, and that decoding recovers it |
| `Wire.OpInverse` | include/linux/avery_doe.h:6-11 | Every 16 bytes are the layout of the op read from them |
| `Wire.TxFields` | doe-emu.c:76-98 | The byte offset of each modelled field; all other bytes are zero |
| `Wire.TxRoundTrip` | thin-server.c:41-63 | Decoding recovers every modelled field |
| `Wire.TxInverse` | doe-emu.c:76-98 | From every 344 bytes the fields are read at those offsets |
| `Wire.TxLayout` | thin-server.c:140-147 | Zeroing and the field stores give exactly the encoded transaction |
| `Wire.LayOut` | doe-emu.c:424-434 | A record buffer is filled in place with exactly the encoded transaction |
| `Buffers.Clear` | thin-server.c:140 | The buffer is all zero |
| `Buffers.Put` | thin-server.c:141-147 | The block is stored and nothing else changes |
| `Framing.Pipe.Arrive` | doe-emu.c:369 | Bytes arrive in order, at least one when a reader waits |
| `Framing.WriteAll` | doe-emu.c:375-383 | For every split into partial writes exactly the buffer is appended to the stream |
| `Framing.ReadAll` | doe-emu.c:365-373 | For every split into partial reads, waiting for bytes still to come, the buffer receives exactly the front of the stream and leaves the rest |
| `Framing.EveryChunk` | doe-emu.c:365-383 | Every non-empty part can be sent or received at any time, and what that does |
| `Framing.TransferOneMore` | doe-emu.c:368-382 | A transfer is its moves one after the other |
| `Framing.ReliableFraming` | daemon-doe.c:53-79 | Under every interleaving of partial sends and receives the records assembled are a prefix of those sent, within a bounded number of moves |
| `Framing.FramingCompletes` | thin-server.c:89-127 | A transfer that cannot go on has delivered every record |
| `Relay.TranslatedOp` | thin-server.c:140-147 | An op of type 0x10 decodes to a write of its value at its offset, any other to a read there |
| `Relay.AnsweredOp` | thin-server.c:152-153 | The answer takes status and value from the reply and the rest from the op |
| `Relay.PlayOneMore` | daemon-doe.c:104-136 | A schedule is its steps one after the other, from a relay that holds the ops and nothing else |
| `Relay.EveryDaemonStep` | daemon-doe.c:111-134 | Each step of the daemon is possible exactly when it is at it, transfers for every chunk size |
| `Relay.EveryServerTransfer` | thin-server.c:89-127 | The same for the transfers of the server |
| `Relay.EveryServerStep` | thin-server.c:134-158 | The same for its local steps |
| `Relay.EveryEmuStep` | doe-emu.c:393-441 | The same for the emulator |
| `Relay.ExecKeepsInv` | thin-server.c:129-159 | Every step of every process keeps the one-record-in-flight invariant and uses up work |
| `Relay.PlayKeepsInv` | daemon-doe.c:104-136 | The invariant and the work bound hold after every schedule |
| `Relay.RelayRefinesDirect` | daemon-doe.c:104-136 | Under every schedule the answers returned are a prefix of those of direct access, at most one link is in use and it holds exactly one record, quit is unreachable, and the number of steps is bounded |
| `Relay.RelayProgress` | thin-server.c:134-158 | While an op is unanswered some step is possible |
| `Relay.RelayCompletes` | daemon-doe.c:104-136 | A schedule that cannot go on has returned the direct answer to every op |
| `Relay.ScheduleCompletes` | daemon-doe.c:104-136 | Every schedule continues to one that cannot go on and has returned the direct answer to every op |
| `Relay.PacketNumbersAgree` | thin-server.c:141-153 | The i-th transaction carries i modulo 2^32 and so does the reply the server consumes for it |
| `Relay.DirectReply` | doe-emu.c:389-442 | Direct access one op at a time is the run of the emulator over the translated ops |
| `Relay.DirectAnswerValue` | thin-server.c:144-153 | Each answer keeps kind and offset, has status 0 and the observable device's value, which for a write is 0 |
| `ThinServer.Server.BuildRequest` | thin-server.c:140-147 | The counter advances modulo 2^32 and the buffer holds the encoded transaction for the op |
| `ThinServer.Server.TakeReply` | thin-server.c:152-153 | Only status and value of the op change, to those of the reply |
| `ThinServer.ReadOp` | thin-server.c:135 | Takes exactly the next op record off a stream |
| `ThinServer.WriteOp` | thin-server.c:157 | Appends exactly the op record to a stream |
| `ThinServer.EmulatorPass` | doe-emu.c:394-440 | One record in, one transaction served, the encoded reply out |
| `ThinServer.ServePass` | thin-server.c:134-158 | The next op reaches the emulator once under the next packet number and its answer goes back; the pipes between are empty again |
| `ThinServer.Serve` | thin-server.c:129-159 | Over any list of ops the client gets back, record for record, the answers of direct access, and the counter advances once for each |
| `EndToEnd.DirectValues` | thin-server.c:134-158 | The values returned for a list of ops are those of the observable device for the accesses they stand for |
| `EndToEnd.SessionDecodes` | thin-server.c:144-147 | For every base the ops of a session perform it on an emulator that has yet to learn the base |
| `EndToEnd.ExchangeOverRelay` | thin-server.c:129-159 | A session for any base and answerable request, sent as ops through the three processes, has returned a beginning of its values under every schedule, and all of them, response dwords in order and once each, under every schedule that cannot go on |
| `Netlink.FindFirstSkips` | daemon-doe-netlink.c:219-228 | Attributes of other kinds in front do not change the result |
| `Netlink.FindFirstExactly` | daemon-doe-netlink.c:219-230 | The first of a kind is the one with none of the kind in front |
| `Netlink.AttrBytes` | daemon-doe-netlink.c:185-188 | An attribute byte by byte |
| `Netlink.AttrsBytes` | daemon-doe-netlink.c:226-227 | A list is its attributes one after the other |
| `Netlink.WellFormedLists` | daemon-doe-netlink.c:216-230 | Every padded list of attributes that fit their length field is covered, also with the last padding cut short |
| `Netlink.WalkAttrs` | daemon-doe-netlink.c:148-155 | The pointer loop terminates and computes the walk |
| `Netlink.HeaderReads` | daemon-doe-netlink.c:184-188 | An attribute anywhere in a buffer reads back as its length, kind and payload |
| `Netlink.WalkFindsFirst` | daemon-doe-netlink.c:216-230 | On every well-formed list the walk ends at the payload of the first attribute of the kind, and finds nothing exactly when there is none |
| `NetlinkDaemon.HeaderFields` | daemon-doe-netlink.c:174-182 | Every header field reads back at its offset |
| `NetlinkDaemon.AnyHeaderSendable` | daemon-doe-netlink.c:174-190 | Every well-formed list of less than 2^31 bytes is covered under any header |
| `NetlinkDaemon.MessageReads` | daemon-doe-netlink.c:207-228 | A message followed by anything reads back as its header fields and first matching attribute |
| `NetlinkDaemon.LengthDecides` | daemon-doe-netlink.c:217-219 | The signed attribute length is positive exactly for length fields above 20 and below 0x80000014; otherwise the buffer is rejected whatever it holds |
| `NetlinkDaemon.AcceptEncoded` | daemon-doe-netlink.c:198-232 | A message is accepted exactly when its command is 1 and it has an attribute of kind 1, with its port, sequence number and the op in the first such attribute |
| `NetlinkDaemon.ResponseRoundTrip` | daemon-doe-netlink.c:161-194 | The walk over a built response recovers op and sequence number, also behind other attributes |
| `NetlinkDaemon.ResponseFields` | daemon-doe-netlink.c:172-190 | Every byte of a response: length 40, family as type, flag 1, sequence number, sender, command 2, and the op in an attribute of kind 1 |
| `NetlinkDaemon.ResponseLayout` | daemon-doe-netlink.c:172-190 | The stores into the zeroed buffer leave the response, length corrected |
| `NetlinkDaemon.AcceptedEach` | daemon-doe-netlink.c:262-265 | Each buffer contributes its own request, or nothing if rejected, wherever it stands among the others |
| `NetlinkDaemon.CorrelatedAppend` | daemon-doe-netlink.c:262-277 | Answering one more request extends the one-for-one pairing of requests and responses |
| `NetlinkDaemon.Daemon.RecvRequest` | daemon-doe-netlink.c:198-232 | Accepts exactly the acceptable buffers and then holds their sequence number and op |
| `NetlinkDaemon.Daemon.SendResponse` | daemon-doe-netlink.c:161-194 | Sends exactly the encoded response |
| `NetlinkDaemon.Remote.Pass` | daemon-doe-netlink.c:270-271 | The op record goes through one pass of the thin server and its answer record comes back, leaving all streams empty |
| `NetlinkDaemon.Remote.Exchange` | daemon-doe-netlink.c:270-271 | One op is added to the traffic, reaches the emulator once under its packet number, and is answered as by direct access |
| `NetlinkDaemon.Daemon.HandleOne` | daemon-doe-netlink.c:264-276 | A rejected buffer sends nothing to the remote and nothing back; an accepted one sends its op to the remote once and the answer back under its sequence number |
| `NetlinkDaemon.Daemon.Run` | daemon-doe-netlink.c:262-277 | The traffic to the remote is exactly the ops of the accepted requests, and the i-th response carries the i-th sequence number and the remote's answer to the i-th op |
| `NetlinkDaemon.FamilyId` | daemon-doe-netlink.c:142-158 | Returns the first two payload bytes of the first family-id attribute, or nothing exactly when there is none |

## Left out

- Sockets, FIFO creation and opening, `poll`, environment variables, process ids and logging: channels are byte sequences and the process id and family id are parameters.
- I/O failures and ends of stream that end a process, and a `read` of the character device that returns part of an op.
- The fields of `simics_transaction_t` that neither side reads (bus, device and function numbers, register value, byte enables, second response fields): they are zero in every encoded record.
- Malformed netlink input: buffers shorter than a header, and requests whose attributes up to the op have lengths below the header size or lie outside the buffer or whose op is incomplete, are excluded by `Walkable` and `Receivable`.
- Short sends and receives on the socket of the netlink daemon: whole records are assumed there.
- The registration and family-lookup requests that the netlink daemon sends once at start: fixed messages.
- `remote-rc.c`, a stub that returns a constant, and the start-up scripts: they would only add easy members.
