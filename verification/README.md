# vitrin-os: a verified model of its protocol core

A Dafny model of the parts of vitrin-os where state machines, byte formats and
arithmetic meet: the wire between the compositor core and the per-app shim, the
pointer-constraint protocol that runs over it, the clipboard endpoint, the idle
relay, the fuzz corpus checker, and the demo agent's pixel decoder.

Verify everything with `dafny verify dfyconfig.toml`.

## How the model is laid out

- `Options`, `Bytes`, `Bits`: optional values, little-endian words, two's complement,
  and AND/XOR on unbounded naturals with the facts that turn masks into arithmetic.
- `Codec`, `CodecBytes`, `Messages`, `Marshal`: the 58 generated encode/decode pairs. A message is
  an opcode and a list of argument types; one interpreter does what every generated
  pair does, so one proof covers all of them. `CodecBytes` says what it means byte by
  byte. `Messages` is the table. `Marshal` holds
  the generated code itself, writing arrays and walking inputs, for four encoders and
  three decoders, each proved equal to the interpreter.
- `WireReceive`, `WireSend`, `WireLink`: the framed transport with descriptors riding
  frames. The receiver reassembles frames from arbitrary reads and matches descriptors
  to frames by byte span; the sender parks what the kernel refuses. `WireLink` joins
  the two through the kernel.
- `Constraint`, `ConstraintCore`, `ConstraintSystem`, `ConstraintEvents`,
  `ConstraintWrap`: the shim's relay, the core's table, the two composed through two
  FIFO channels with every interleaving of app, core and deliveries, and what the app's
  objects are told. `ConstraintWrap` shows the bound on late verdicts to be exact.
- `Utf8`, `ClipboardRead`, `ClipboardServe`, `ClipboardLoop`: the validator, the read
  machine, the outgoing transfers, and the two ends joined by a bounded pipe.
- `Pixels`, `Bands`, `BandScan`, `Hash`, `Receipt`: the colour masks, the runs and the
  greedy band matcher, what reading a capture means, the checksum, and the record.
- `Idle`, `Seeds`: the idle-inhibit edges and the fuzz seed checker.

Code that updates state in place is a class whose methods are proved equal to pure
functions (`View()` before and after); what the source promises is then proved about
those functions over whole runs.

## What was found

- A region change on an active constraint clears the shim's flag without telling the
  app's object, so the object can be told `activated` twice in a row
  (`RegionChangeRepeatsActivation`, `TwiceActivated`). This is the only step that breaks the
  alternation (`FaithfulIff`).
- `vitrin_wire_send` compares the declared descriptor count with the attached
  descriptor only for a count of one, so a frame that declares two or more and carries
  none is sent. A receiver fails on its header (`OverdeclaredGetsThrough`). The Rust
  end refuses to send such a frame. No encoder produces one (`EncodedIsTaken`), and it
  is the only kind of checked frame that does not come out (`CheckedIsDeclaredIff`,
  `EndToEnd`).
- Serials are 32 bits and wrap. `constraint.h` says they strictly increase and are
  never reused; they increase exactly while fewer than 2^32 asks have been sent, and
  none is reused exactly until one more has (`AskDiscipline`). A withdrawal ends the live record exactly when its
  ask lies a multiple of 2^32 mints back (`WithdrawalMatchesIff`); the run theorems
  ask only that a verdict be heard before 2^32 further asks, and one ask later is too
  late (`LateVerdictDisagrees`).
- An app whose region misses its surface altogether is sent on as a 0x0 rectangle, and
  a comment in `constraint.c` says the core answers that `inactive` forever. The core
  reads 0x0 as the whole surface, so the constraint comes into force anywhere on it;
  an empty region is the only kind this happens to (`RegionKeptIff`).
- `constraint.h` says that `refused` does nothing and `superseded` forgets the record.
  The code forgets on `refused` and does nothing on `superseded`; the model follows
  the code. With the core as written neither arm is ever taken for the live record.
- `clipboard.h` promises exactly one answer to every request. A request that arrives
  while another is being read drops the earlier one, which is never answered
  (`FirstOfTwoIsLost`). Those are exactly the requests that are not answered
  (`UnansweredIff`).
- When an event source cannot be registered, the transfer counter is lowered for a
  transfer that was never counted. This happens exactly when the counter is above zero
  (`FallsBehindIff`), and it lets more than eight transfers live at once
  (`CapCanBeExceeded`).
- Band reading files each scanline under the first wanted colour it is solid in. That
  loses nothing on every capture of a given width exactly when any two different wanted
  colours differ in some channel's top four bits and the capture is at least three
  pixels wide (`ReadingExact`). The matcher's comment worries about adjacent bands of
  one record sharing a colour; they never do (`BandsDiffer`).

## What is assumed

- The kernel: a stream socket delivers bytes in order; a read stops inside the first
  segment that carries a descriptor, so it never spans the starts of two such segments
  (`KernelRule`); a failed read or write takes nothing.
- wlroots and libwayland: an event source that was removed does not fire; deactivating
  a oneshot object destroys it at once and calls its destroy handlers.
- `vitrin_wire_send` and the encoders succeed where the constraint, idle and clipboard
  files call them (the clipboard's answer is proved to encode).
- The share `0.90` of a scanline is nine tenths exactly. A descriptor and its duplicate
  are one descriptor. Surface coordinates are reals.
- Memory, event-source and pipe failures, clock deadlines, partial reads and writes are
  inputs or nondeterministic choices.

## Model

| member | source | states |
|---|---|---|
| `Codec.DecodeOfEncode` | shim/include/vitrin-protocol.h:1243-1331 | For every signature, decoding an encoded frame yields the same object id and arguments, or exactly the first complaint the decoder has about a value the encoder does not check. |
| `Codec.EncodeOfDecode` | shim/include/vitrin-protocol.h:1294-1331 | Any byte string a decoder accepts is byte for byte the encoding of what it decoded: zero padding, exact size, nothing trailing. |
| `Codec.AcceptedIffEncoding` | shim/include/vitrin-protocol.h:1294-1331 | A decoder accepts exactly the frames its encoder can produce from well-typed arguments without complaint, given the right descriptor. |
| `Codec.DecodeInjective` | shim/include/vitrin-protocol.h:1294-1331 | Two frames that decode to the same message are the same frame. |
| `Codec.ReadWritten` | shim/include/vitrin-protocol.h:195-275 | Reading back one written argument gives it, or its complaint, and stops where it ended. |
| `Codec.WrittenRead` | shim/include/vitrin-protocol.h:195-275 | The bytes an accepted argument was read from are the bytes it would be written as. |
| `Codec.ParseOfHeaderBytes` | shim/include/vitrin-protocol.h:279-303 | A written header parses back to its four fields whatever follows. |
| `Codec.HeaderBytesOfParse` | shim/include/vitrin-protocol.h:279-303 | A parsed header writes back to the same eight bytes. |
| `Codec.OverflowIffSmallBuffer` | shim/include/vitrin-protocol.h:219-221 | Where the string bounds keep a message under the u16 limit, overflow is reported exactly when the buffer is too small. |
| `Messages.EveryMessageFits` | shim/include/vitrin-protocol.h:318 | For each of the 58 messages the string bounds alone keep the frame within 65535 bytes. |
| `Messages.OnlyRoomIsRefused` | shim/include/vitrin-protocol.h:1244-1271 | For each of the 58 messages, arguments the decoder has no complaint about are refused only for want of room, and otherwise come back from the decoder unchanged. |
| `Bytes.LittleEndian` | shim/include/vitrin-protocol.h:188-206 | The four bytes of a word weigh 1, 256, 65536 and 16777216, first to last. |
| `CodecBytes.HeaderLayout` | shim/include/vitrin-protocol.h:279-288 | An encoded frame starts with the object id, least significant byte first, then its own length in two bytes, the opcode and the descriptor count. |
| `CodecBytes.FrameLayout` | shim/include/vitrin-protocol.h:1244-1271 | Every argument's bytes stand right after those of the one before, from byte 8 to the end. |
| `CodecBytes.StringLayout` | shim/include/vitrin-protocol.h:219-237 | A string is its length word, its bytes and zeros up to a multiple of four. |
| `CodecBytes.GateFaults` | shim/include/vitrin-protocol.h:1297-1314 | Which fault before the arguments is reported, on the bytes of the frame and in its order. |
| `CodecBytes.StringFaults` | shim/include/vitrin-protocol.h:246-275 | A string read is too long, truncated, malformed or its bytes, decided on the bytes. |
| `CodecBytes.FirstBadArgument` | shim/include/vitrin-protocol.h:3745-3783 | Of an encoded frame the first argument its type does not admit is the one reported, as a bad enum or a bad bitfield. |
| `CodecBytes.DecodedAdmissible` | shim/include/vitrin-protocol.h:446-453 | Whatever is decoded, every enum value is a named one, every bitfield has only known bits, and every string is in bounds. |
| `CodecBytes.TooLongIff` | shim/include/vitrin-protocol.h:1244-1271 | The encoder reports a string over its bound exactly when there is one, whatever the room. |
| `CodecBytes.TrailingIsRefused` | shim/include/vitrin-protocol.h:1326-1331 | Any bytes after the last argument are refused, even under a header that counts them. |
| `CodecBytes.CutIsTruncated` | shim/include/vitrin-protocol.h:195-206 | A body cut short anywhere is reported as truncated. |
| `Marshal.WriteU32` | shim/include/vitrin-protocol.h:188-193 | The four bytes at the cursor weigh up to the word, least significant first, and nothing else changes. |
| `Marshal.ReadU32` | shim/include/vitrin-protocol.h:195-206 | The word its four bytes weigh up to, least significant first, and so the one the writer would put there; truncated exactly when fewer than four are left. |
| `Marshal.WriteString` | shim/include/vitrin-protocol.h:227-237 | Length, bytes and zero padding land at the cursor, nothing else changes, and the returned length is theirs. |
| `Marshal.ReadStringArg` | shim/include/vitrin-protocol.h:246-275 | The bounded, padded string read equals the interpreter's, each failure in its order. |
| `Marshal.WriteHeader` | shim/include/vitrin-protocol.h:279-288 | The eight header bytes are written and nothing else changes. |
| `Marshal.OpenFrame` | shim/include/vitrin-protocol.h:1297-1314 | The descriptor, header, opcode, size and count gates, in order; past them decoding is reading the arguments. |
| `Marshal.SelectionEncode` | shim/include/vitrin-protocol.h:3698-3723 | The buffer-writing encoder writes exactly the interpreter's frame, leaves the rest of the buffer alone, and on refusal leaves all of it. |
| `Marshal.AttachEncode` | shim/include/vitrin-protocol.h:4591-4617 | The same for a message that carries a descriptor. |
| `Marshal.ResolvedEncode` | shim/include/vitrin-protocol.h:2565-2586 | The same for enum and bitfield arguments. |
| `Marshal.PointerConstraintEncode` | shim/include/vitrin-protocol.h:3823-3852 | The same for signed words. |
| `Marshal.SelectionDecode` | shim/include/vitrin-protocol.h:3745-3783 | The generated decoder equals the interpreter on every input and descriptor, value or error. |
| `Marshal.AttachDecode` | shim/include/vitrin-protocol.h:4639-4685 | The same, with the out-of-band descriptor among the arguments. |
| `Marshal.ResolvedDecode` | shim/include/vitrin-protocol.h:2608-2652 | The same, with enum and bitfield checks. |
| `WireReceive.EveryReadPattern` | shim/src/wire.c:349-547 | However a framed stream is cut into reads, exactly the frames received whole have been handed on, in order, each with its own descriptor, up to the first header that declares several; the connection fails exactly when that header has arrived. |
| `WireReceive.AnyPeer` | shim/src/wire.c:349-547 | Against any peer at all, and a handler that answers as it likes: delivered frames and buffered bytes are the bytes taken, each frame has a descriptor exactly when its header declares one, and every descriptor received is in exactly one place: delivered, waiting or closed. |
| `WireReceive.DispatchFramed` | shim/src/wire.c:485-547 | One dispatch over a matching buffer hands on exactly the complete frames and keeps the rest matched, or stops and fails at a header that declares several descriptors. |
| `WireReceive.DispatchSound` | shim/src/wire.c:485-547 | Dispatch loses and duplicates no descriptor and keeps the soundness of the state, on any input. |
| `WireReceive.FillKeeps` | shim/src/wire.c:349-442 | One read adds exactly its descriptors to those accounted for, also when the queue is full or the kernel truncated them. |
| `WireReceive.ClaimOwn` | shim/src/wire.c:455-480 | The front descriptor can be claimed by the frame that owns it, and nothing is left unclaimed behind it. |
| `WireReceive.UndeclaredIsRefused` | shim/src/wire.c:516-524 | A descriptor riding a frame that declares none: the frame is not handed on and the descriptor is closed. |
| `WireReceive.MissingIsRefused` | shim/src/wire.c:509-515 | A frame that declares a descriptor and has none is not handed on. |
| `WireReceive.LateIsRefused` | shim/src/wire.c:455-468 | A descriptor that arrives with a later part of its frame is not taken, and is closed. |
| `WireReceive.RejectedIsLast` | shim/src/wire.c:525-541 | The connection fails exactly when the protocol layer rejects the frame, which is the last handed on. |
| `WireReceive.FillFailsIff` | shim/src/wire.c:395-434 | A read fails the connection exactly when it brings more descriptors than fit or the kernel dropped some. |
| `WireReceive.Wire.FillFrom` | shim/src/wire.c:349-442 | A full buffer, a blocked, reset, failed, empty or truncated read and an ordinary one each leave the stated state: a full buffer, an error or truncation fails it, a blocked read or a reset changes nothing, and the stream has ended exactly after a reset or an empty read. |
| `WireReceive.Wire.Queue` | shim/src/wire.c:395-434 | Descriptors are queued with the span of their read; those over the limit are closed and the connection fails. |
| `WireReceive.Wire.TakeAt` | shim/src/wire.c:506-541 | One turn of the dispatch loop claims, checks and hands on one frame. |
| `WireReceive.Wire.DispatchAll` | shim/src/wire.c:485-547 | The in-place dispatch loop equals the recursive dispatch, whatever the handler answers each time; on failure the buffer stays as it was. |
| `WireReceive.Wire.Compact` | shim/src/wire.c:543-546 | The unread tail moves to the front and the stream offset keeps pace. |
| `WireReceive.Wire.Poison` | shim/src/wire.c:41-69 | A failure closes every waiting descriptor once. |
| `WireSend.LawfulOnWire` | shim/src/wire.c:128-194 | Whatever has been accepted and parked, the bytes on the wire are a prefix of the offered frames, with descriptors exactly at the frame starts within it. |
| `WireSend.OfferLawful` | shim/src/wire.c:289-343 | Offering a frame keeps given and owed together equal to the frames offered. |
| `WireSend.EmitLawful` | shim/src/wire.c:128-194 | So does every partial write, and a descriptor leaves with the first byte and never again. |
| `WireSend.Sender.Write` | shim/src/wire.c:128-194 | For every sequence of kernel outcomes the write loop takes out exactly what the kernel took, with the descriptor on the first byte, and stops only when done, refused or broken. |
| `WireSend.Sender.Flush` | shim/src/wire.c:238-274 | For every sequence of kernel outcomes the two loops leave what the flush function says: the oversized frame retried until a try takes nothing, then the queue in order. |
| `WireSend.FlushStops` | shim/src/wire.c:235-274 | A flush that leaves something parked on a living connection stopped because the kernel last said it was full. |
| `WireSend.FlushAll` | shim/src/wire.c:238-274 | With a kernel that keeps taking, a flush sends everything parked with every descriptor at its place. |
| `WireSend.FlushDelivers` | shim/src/wire.c:238-274 | So that then exactly the frames offered are on the wire. |
| `WireSend.SendAll` | shim/src/wire.c:289-343 | With such a kernel a send on an idle sender puts the whole frame and its descriptor out and parks nothing. |
| `WireSend.SendFailsIff` | shim/src/wire.c:198-233 | Short of an error from the kernel or in duplicating a descriptor, a send fails exactly for a second oversized frame or a sixty-fifth small one. |
| `WireSend.Sender.Park` | shim/src/wire.c:198-233 | What is parked completes the stream, oversized or queued as the rules say; when there is no slot or no duplicate the connection fails and what is already out stays lawful. |
| `WireSend.CheckedIsDeclaredIff` | shim/src/wire.c:296-318 | A frame that passes the sender's checks is one a receiver takes exactly when its header declares at most one descriptor. |
| `WireSend.Sender.Send` | shim/src/wire.c:289-343 | Every send leaves exactly what the guard, flush, write and park say for the given kernel outcomes, keeps the wire a prefix of the frames offered with descriptors in place, and offers a frame exactly when the connection is alive and it passes the checks. |
| `WireLink.KernelDelivers` | shim/include/wire.h:140-157 | A read of any stretch of a lawful wire brings exactly the descriptors of the frames that start in it. |
| `WireLink.EndToEnd` | shim/src/wire.c:128-547 | Every pattern of partial writes, parking, flushing and reads, for whatever frames the sender let through: the receiver has handed on exactly those that arrived whole before the first header declaring several descriptors, and fails exactly when that header has arrived; once all is read, everything came out if and only if there was none. |
| `WireLink.FromASender` | shim/src/wire.c:128-547 | The same for the sender object, from its invariant alone. |
| `WireLink.OverdeclaredGetsThrough` | shim/src/wire.c:316-318 | A bare header that declares two descriptors and carries none passes the sender's checks and makes the receiver fail. |
| `WireLink.EncodedIsTaken` | shim/include/vitrin-protocol.h:279-288 | Every encoder's frame declares its own size and at most its one descriptor, so every receiver takes it, and a sender lets it through unless it is over 64 bytes and carries a descriptor. |
| `Constraint.Relay.SendAsk` | shim/src/constraint.c:46-73 | A fresh serial is minted and one ask with it goes out. |
| `Constraint.Relay.AskForLive` | shim/src/constraint.c:144-174 | The record takes the fresh serial, the flag is cleared and the object's own kind, lifetime and region are asked for. |
| `Constraint.Relay.LiveDestroyed` | shim/src/constraint.c:89-99 | The record is forgotten before the withdrawal goes out. |
| `Constraint.Relay.Deactivate` | shim/src/constraint.c:255-281 | The object is told; a oneshot is destroyed and its handler re-entered. |
| `Constraint.Relay.NewConstraint` | shim/src/constraint.c:210-228 | A new object replaces the live one, which is deactivated first if it was told active, re-entrant destroy included. |
| `Constraint.Relay.SetRegion` | shim/src/constraint.c:176-197 | Only the live object's region change asks again. |
| `Constraint.Relay.Forget` | shim/src/constraint.c:199-208 | The record and its flag are dropped. |
| `Constraint.Relay.Handle` | shim/src/constraint.c:232-301 | Every verdict on every state: ignored unless it names the live serial, else exactly the stated transition. |
| `Constraint.Relay.Finish` | shim/src/constraint.c:327-335 | Teardown forgets the record and sends nothing. |
| `ConstraintCore.Table.AskFrom` | crates/vitrin-core/src/input/constraint.rs:438-485 | An ask changes its own realm's record and owes that realm alone the verdicts due; a repaint is owed whenever the sprite could differ. |
| `ConstraintCore.Table.WithdrawFrom` | crates/vitrin-core/src/input/constraint.rs:497-505 | The record goes and its own serial is answered, or nothing happens. |
| `ConstraintCore.Table.WithdrawAll` | crates/vitrin-core/src/input/constraint.rs:515-525 | Every realm's record goes and every one is answered once. |
| `ConstraintCore.Table.ReconcileAll` | crates/vitrin-core/src/input/constraint.rs:572-606 | After a round every record is active, and told so, exactly when its constraint is in force on the screen; exactly the changes are reported; a oneshot that was told active and is no longer in force is gone; and without an owed repaint no gate could tell the difference. |
| `ConstraintCore.InForceIff` | crates/vitrin-core/src/input/constraint.rs:261-314 | The early returns find a record active exactly when its realm is focused, the output active and lit with nothing over it, and the pointer on the surface and in the region, the 0x0 region being the whole surface. |
| `ConstraintCore.RegionKeptIff` | shim/src/constraint.c:117-141 | A constraint is in force only with the pointer inside the app's region, whatever the circumstances, if and only if that region is not empty. |
| `ConstraintCore.RefusedIff` | crates/vitrin-core/src/input/constraint.rs:438-485 | An ask is refused exactly when it is not a withdrawal and names no surface, and what the realm held still stands. |
| `ConstraintCore.Table.ForgetRealm` | crates/vitrin-core/src/input/constraint.rs:535-541 | A dead realm's record goes silently; siblings stay. |
| `ConstraintCore.StaysSettled` | crates/vitrin-core/src/input/constraint.rs:438-606 | After any ask, withdrawal or refresh a record's state is what was last reported of it. |
| `ConstraintCore.SpriteNeedsEverything` | crates/vitrin-core/src/input/constraint.rs:343-356 | The human's cursor is hidden exactly when the focused realm's record is active and its constraint is in force on the screen right now. |
| `ConstraintCore.SpriteIffReported` | crates/vitrin-core/src/input/constraint.rs:1064-1100 | After every round the cursor is hidden exactly when the focused realm's shim was last told active, and no other realm's was. |
| `ConstraintSystem.StepKeeps` | shim/src/constraint.c:89-301 | The system invariant (serials, last word, the record behind the channel, convergence of belief) survives every step of app, shim, core and either channel. |
| `ConstraintSystem.QuiescentAgreement` | shim/src/constraint.c:144-301 | In every run, when both channels are empty the core holds a record iff the shim does, under the same serial, of the live object's own kind, lifetime and region, and they agree whether it is active. |
| `ConstraintSystem.SettlesInAgreement` | shim/src/constraint.c:232-301 | From any reachable state, delivering what is in flight ends, and ends in agreement. |
| `ConstraintSystem.DeliveryReleases` | shim/src/constraint.c:232-301 | Each delivery lowers a measure, re-entrant withdrawals included. |
| `ConstraintSystem.StaleVerdictsAreInert` | shim/src/constraint.c:244-301 | In every run the next verdict concerns the live record, and is then neither refusal nor supersession, or it changes no state and no object. |
| `ConstraintSystem.AskDiscipline` | shim/src/constraint.c:46-228 | In every run the 32-bit serials on the wire strictly rise if and only if fewer than 2^32 asks were sent, and are all different if and only if at most 2^32 were; while a constraint is live the last message sent is its object's own ask: that surface, kind, lifetime and region, under the live serial. |
| `ConstraintSystem.WithdrawalMatchesIff` | shim/src/constraint.c:248-253 | A withdrawal ends the live record exactly when its ask lies a multiple of 2^32 mints back. |
| `ConstraintWrap.LateVerdictDisagrees` | shim/src/constraint.c:248-281 | A run from the beginning in which a withdrawal is heard one ask later than the bound allows, ends the wrong record, and leaves the two ends disagreeing with nothing in flight. |
| `ConstraintSystem.ShortRunsAreTimely` | shim/include/constraint.h:111-114 | A run of fewer than 2^32 asks hears every verdict in time. |
| `ConstraintEvents.FaithfulIff` | shim/src/constraint.c:176-301 | A step keeps the flag equal to what the app was told exactly when it is not a region change on the active object. |
| `ConstraintEvents.ObjectsAlternate` | shim/src/constraint.c:210-301 | In every run without such a change each object is told activated and deactivated in turn, activated first, and at most one is active. |
| `ConstraintEvents.RefusalIsSilent` | shim/include/constraint.h:32-41 | A refusal or a supersession tells no object anything, destroys none and sends nothing. |
| `ConstraintEvents.DeactivationEnds` | shim/src/constraint.c:264-271 | Deactivation ends a oneshot object and not a persistent one; the live one's end is told to the core. |
| `ConstraintEvents.RegionChangeRepeatsActivation` | shim/src/constraint.c:176-197 | From any quiet state with an active object, a region change leads to a second activation with no deactivation between. |
| `ConstraintEvents.TwiceActivated` | shim/src/constraint.c:144-301 | A run from the beginning after which one object's whole history is two activations. |
| `Utf8.ScanIffEncoding` | shim/src/clipboard.c:55-102 | The scan accepts exactly the UTF-8 encodings of scalar sequences without U+0000, and the sequence is unique. |
| `Utf8.ScanIffGrammar` | shim/src/clipboard.c:55-102 | Equivalently, exactly the strings of the grammar in section 4 of RFC 3629 without the zero byte. |
| `Utf8.Valid` | shim/src/clipboard.c:55-102 | The masked, indexed loop accepts exactly what the scan accepts. |
| `Utf8.Classify` | shim/src/clipboard.c:62-78 | The lead-byte masks pick the length and payload of the sequence. |
| `Utf8.Continue` | shim/src/clipboard.c:85-91 | The continuation loop folds its bytes, or stops at the first that is none. |
| `ClipboardRead.RequestAccounting` | shim/src/clipboard.c:144-302 | In every run each request is answered once, or dropped for a later one and never answered, or being read; with no read active the buffer is zero and no pipe is open. |
| `ClipboardRead.UnansweredIff` | shim/src/clipboard.c:256-302 | In every run a request has neither an answer nor a read in progress if and only if another request arrived while it was being read. |
| `ClipboardRead.DroppedIff` | shim/src/clipboard.c:263-265 | One event drops a request exactly when it is a new request and finds that one being read. |
| `ClipboardRead.FirstOfTwoIsLost` | shim/include/clipboard.h:162-163 | Two requests in a row, the first being read: the first is never answered. |
| `ClipboardRead.AnswerMeans` | shim/src/clipboard.c:167-243 | A request that is read is answered once when the read is over, by the bytes the source supplied in all: too large over 61440, empty for none, the bytes themselves if they are text, and otherwise wrong type. |
| `ClipboardRead.DrainRight` | shim/src/clipboard.c:205-243 | One wakeup ends the read exactly at the end of the pipe, an error, a hangup or a full buffer. |
| `ClipboardRead.OtherAnswers` | shim/src/clipboard.c:196-302 | A deadline, no source, no pipe and no watch are answered empty at once, another type as wrong type. |
| `ClipboardRead.AnswerReachesCore` | shim/src/clipboard.c:116-140 | Every answer of a reachable state encodes into its frame and decodes to the same serial, status, type and data, which are empty unless ok. |
| `ClipboardRead.Endpoint.HandleRequest` | shim/src/clipboard.c:256-302 | A request supersedes the read in progress, and is answered at once or begins a read, for every source. |
| `ClipboardRead.Endpoint.PipeReadable` | shim/src/clipboard.c:205-243 | Any mix of partial reads, interruptions, overflow, end and errors leaves the stated state. |
| `ClipboardRead.Endpoint.Finish` | shim/src/clipboard.c:167-194 | The verdict depends on overflow, emptiness and validity in that order, and the read is torn down. |
| `ClipboardRead.Endpoint.DeadlinePassed` | shim/src/clipboard.c:196-203 | The deadline answers timeout and tears down. |
| `ClipboardRead.Endpoint.TearDown` | shim/src/clipboard.c:144-164 | The pipe is closed and the buffer wiped. |
| `ClipboardServe.TransferAccounting` | shim/src/clipboard.c:323-427 | In every run the counter is at most eight and at most the live transfers, which exceed it by at most one per failed registration; each client has received a prefix of its bytes. |
| `ClipboardServe.FallsBehindIff` | shim/src/clipboard.c:418-426 | The counter falls behind exactly when a registration fails while it is above zero. |
| `ClipboardServe.CapCanBeExceeded` | shim/src/clipboard.c:385-427 | A run from wiring, of seven pastes, one failed registration and two more pastes, leaves nine transfers alive. |
| `ClipboardServe.PasteMeans` | shim/src/clipboard.c:385-427 | A transfer of exactly the offered bytes starts exactly for a paste of our type under the cap that could be set up, and no other transfer is touched. |
| `ClipboardServe.EndedIsGone` | shim/src/clipboard.c:344-375 | A broken pipe, a deadline or a failed write takes the transfer away; otherwise it lives exactly until its client has everything. |
| `ClipboardServe.Engine.Paste` | shim/src/clipboard.c:385-427 | A paste is refused, or starts a transfer, as its set-up goes. |
| `ClipboardServe.Engine.WritableNow` | shim/src/clipboard.c:351-375 | Any mix of partial writes, interruptions and errors advances or ends the transfer. |
| `ClipboardServe.Engine.FreeTransfer` | shim/src/clipboard.c:323-342 | The transfer goes and the counter falls, never below zero. |
| `ClipboardLoop.SelfRoundTrip` | shim/src/clipboard.c:205-489 | Under every interleaving of partial writes and reads over a bounded pipe, what was offered is answered back exactly, or as wrong type when it is not text; and until then a step nearer the end is always possible. |
| `ClipboardLoop.OfferIgnored` | shim/src/clipboard.c:446-457 | An offer of another type, of nothing or of too much leaves the selection alone. |
| `Pixels.MatchRowsIsPixelTest` | examples/agent-demo/run_demo.py:518-571 | The three-plane big-integer AND is 0xFF at a pixel exactly when its colour agrees in the top four bits of every channel, else 0, for every frame, stride and colour. |
| `Pixels.AndOfBytes` | examples/agent-demo/run_demo.py:566-570 | AND of two big-endian integers is AND byte by byte. |
| `Pixels.LocateMarker` | examples/agent-demo/run_demo.py:621-653 | Nothing exactly when no pixel of the frame matches; otherwise the number of pixels that match and the smallest box around them, each side touching one. |
| `Pixels.TotalIsSize` | examples/agent-demo/run_demo.py:639-645 | The count summed over the rows is the number of positions hit. |
| `Pixels.HitsAreMatching` | examples/agent-demo/run_demo.py:549-571 | The positions hit in the mask are exactly the pixels of the frame that match. |
| `Pixels.HitsIsSize` | examples/agent-demo/run_demo.py:641-644 | The count of a row is the number of its matching positions. |
| `Bands.CutRuns` | examples/agent-demo/run_demo.py:725-733 | The runs are the maximal runs of one colour: non-empty, in order, covering every coloured line, no two joinable. |
| `Bands.MatchBands` | examples/agent-demo/run_demo.py:736-760 | For a positive height the greedy walk succeeds exactly when the bands can be placed in order without overlap anywhere; for a height of zero or less, exactly when the colours occur in order. |
| `Bands.TakeHere` | examples/agent-demo/run_demo.py:752-755 | Taking a block where one can start loses no placement: the exchange step. |
| `BandScan.SolidRowRuns` | examples/agent-demo/run_demo.py:702-733 | Lines are filed under the first wanted colour nine tenths of their pixels show, and cut into maximal runs. |
| `BandScan.HitsAreShown` | examples/agent-demo/run_demo.py:722-724 | Counting the mask of a line counts the pixels that show the colour. |
| `BandScan.ReadBands` | examples/agent-demo/run_demo.py:922-923 | Segmentation and matching together find the bands exactly when they are on the screen, for colours that can be told apart. |
| `BandScan.ReadingExact` | examples/agent-demo/run_demo.py:702-760 | On all captures of a width the reading equals what is painted, if and only if different wanted colours differ in top bits and the width is at least three. |
| `Hash.Fnv` | examples/agent-demo/run_demo.py:234-239 | The loop is the fold of the step over the bytes, in 32 bits. |
| `Hash.HashOfA` | examples/agent-demo/run_demo.py:220-239 | The hash of nothing and of one letter are the published FNV-1a values. |
| `Hash.StepUndone` | examples/agent-demo/run_demo.py:237-238 | Every step is a bijection of the 32-bit states, with its inverse given. |
| `Hash.FoldInjective` | examples/agent-demo/run_demo.py:234-239 | States that differ stay different over any common suffix. |
| `Hash.OneByteShows` | examples/agent-demo/run_demo.py:234-239 | Inputs that differ in one byte have hashes that differ, already in their low twelve bits. |
| `Receipt.SpecIffSpelling` | examples/agent-demo/run_demo.py:147-194 | A specification yields a pair exactly when the pair is well formed and spells it. |
| `Receipt.WellFormedIff` | examples/agent-demo/run_demo.py:147-193 | A pair is accepted exactly with a key free of equals signs, typable characters throughout, and a value of at most 4096 bytes. |
| `Receipt.SpecFaults` | examples/agent-demo/run_demo.py:182-193 | Which fault of a specification is complained of, in order. |
| `Receipt.ParseTask` | examples/agent-demo/run_demo.py:171-203 | Accepted exactly when there are two specifications and each is good; the pairs spell them in order; otherwise the first bad one, or the number, is the complaint. |
| `Receipt.CanonicalRoundTrip` | examples/agent-demo/run_demo.py:206-208 | Splitting the canonical text at newlines and first equals signs gives the record back. |
| `Receipt.CanonicalInjective` | examples/agent-demo/run_demo.py:206-208 | Records with the same canonical bytes are the same record. |
| `Receipt.ReceiptBands` | examples/agent-demo/run_demo.py:242-264 | The three colours are those of the hash of the record and the band number, in order; a record with no UTF-8 form has none. |
| `Receipt.ChannelsSpellHash` | examples/agent-demo/run_demo.py:256-262 | Read as hexadecimal digits, red first, the channels spell the low twelve bits of the hash, each digit doubled. |
| `Receipt.BandsDiffer` | examples/agent-demo/run_demo.py:242-264 | The bands of one record are always three colours the reader tells apart. |
| `Receipt.WrongByteChangesEveryBand` | examples/agent-demo/run_demo.py:242-264 | One wrong byte in the record changes all three bands. |
| `Receipt.ReceiptDistinguishable` | examples/agent-demo/run_demo.py:242-264 | Every record's bands are readable exactly on captures three or more pixels wide. |
| `Receipt.FrameCarries` | examples/agent-demo/run_demo.py:911-924 | The check on a captured frame holds exactly when this record's bands are painted on it. |
| `Idle.EveryLife` | shim/src/idle.c:81-185 | In every run asks alternate from held; before teardown held is outstanding exactly while a tracked inhibitor lives; after it never. |
| `Idle.SilentAfterTeardown` | shim/src/idle.c:166-185 | Destroys that come after teardown send nothing. |
| `Idle.EventKeeps` | shim/src/idle.c:81-185 | Every event keeps the count, the flag and the parity of the asks in step. |
| `Idle.Watcher.constructor` | shim/src/idle.c:147-164 | The relay starts with nothing counted and nothing said, wired only if its manager exists. |
| `Idle.Watcher.Tell` | shim/src/idle.c:81-100 | An ask goes out exactly on an edge against what was last said. |
| `Idle.Watcher.NewInhibitor` | shim/src/idle.c:122-143 | A tracked inhibitor is counted; an untracked one changes nothing. |
| `Idle.Watcher.InhibitorDestroyed` | shim/src/idle.c:104-120 | The count falls, never below zero, and the edge is told. |
| `Idle.Watcher.TearDown` | shim/src/idle.c:166-185 | The count is forced to zero and any hold released, while the watchers stay. |
| `Seeds.FrameIsEncoding` | fuzz/seed_corpus.py:83-98 | The Python frame builder's bytes are the C encoder's for every message and arguments. |
| `Seeds.WireString` | fuzz/seed_corpus.py:87-93 | Length, bytes and the negative-remainder padding are the C string's bytes. |
| `Seeds.CheckSeed` | fuzz/seed_corpus.py:463-510 | A seed passes exactly when its floor, selector, name and, if claimed to decode, its gates hold. |
| `Seeds.Verify` | fuzz/seed_corpus.py:437-510 | The corpus passes exactly when all seeds differ, the claimed names are the seeds' names, and every claim is kept. |
| `Seeds.GatesAreTheDecoders` | fuzz/seed_corpus.py:482-510 | The checker's gates hold exactly when the decoder has a header and raises none of its gate errors. |
| `Seeds.DecodableSeedsPass` | fuzz/seed_corpus.py:463-510 | No seed that decodes is refused. |
| `Seeds.BuiltSeedsDecode` | fuzz/seed_corpus.py:83-98 | A frame built from good arguments passes the gates and decodes to them. |

## Left out

- The remaining 54 generated encoders and 55 decoders as array code: they repeat the pattern of those in `Marshal`, and the interpreter covers them.
- `vitrin_fixed_from_double` and its inverse: rounding of binary floating point.
- `vitrin_wire_recv_sync`, `vitrin_wire_arm`, `wire_ready`, `wire_update_mask` and `vitrin_wire_adopt`: event-loop plumbing around the modelled fill, dispatch and flush.
- The closing of a descriptor its handler did not keep: a delivered descriptor counts as the handler's.
- Rings and fixed slots of the transport: the pending-descriptor array and the send queue are sequences with the same bounds, so their index arithmetic is not modelled; the reassembly buffer is an array.
- The Rust end of the transport (`vitrin-ipc`): it matches descriptors to frames by the same spans, but holds up to eight unclaimed descriptors instead of four and refuses to send a header that declares more than one. `WireLink` therefore joins the shim's sender to the shim's own receiver, two ends that in the program each face the Rust end.
- Regions that are not rectangles, and the letterbox of a toplevel the app sized itself: an object's region is the one rectangle it is sent as.
- Realm creation and death beyond forgetting its record, and the session's choice of when to reconcile: the composed system lets the core act at any time.
- `constraint.c` before `vitrin_constraint_create` and after `vitrin_constraint_finish`: runs begin at creation, and agreement is claimed before teardown.
- `on_request_set_selection`, the scan of a source's types, `clip_source_destroy` and `vitrin_clipboard_finish`: one-branch code; whether a source offers our type is an input.
- The exact bytes of an `ok` answer after a pipe read error: the code may answer with the prefix it has.
- `changed_in_rect`, `Rect` and hexadecimal colour parsing in the demo: easy arithmetic.
- The demo's polling, HTTP server, browser driving and command line; the shell example; brand asset generation.
- The `ipc_framing` seeds and the reading of the interface description: the list of messages is a parameter of the seed checker.
- The Rust decoder's extra refusal of embedded zero bytes in strings: the C decoder modelled here has no such gate.
