# Mouse Without Borders client: a verified model

This project models the protocol and state logic of a Linux client for Mouse Without Borders and proves
properties of it in Dafny. It covers four parts of the client and one monitor:

- **The wire.** Packets are marshalled to 32 or 64 bytes, stamped with a magic number and a checksum, and
  encrypted as one AES-CBC stream shared by many goroutines (`Packets`, `Stamp`, `Stream`, `Connection`,
  `Senders`, `PacketIds`). Two peers open a connection with a challenge handshake (`Handshake`).
- **The clipboard.** Text becomes a `TXT...separator` payload, UTF-16LE, a compressed blob and 48-byte chunks, and
  is reassembled on the other side (`Utf16`, `ClipText`, `ClipWire`, `ClipChannel`). Files travel as a 1024-byte
  header and a padded body (`FileTransfer`).
- **Cursor ownership.** Which machine owns the cursor, the dead-reckoned remote cursor, the gates that stop it from
  bouncing between screens, and the mapping back to a local pixel (`Motion`, `Ownership`, `OwnershipRuns`).
- **Injection.** Incoming key and mouse packets become device events: the AltGr transducer that holds every Ctrl
  press back by one event, the keys held down, the inbound cursor tracker, and whole connections through the receive
  loop (`Keyboard`, `Chords`, `Inbound`, `Handler`, `Sessions`).
- **Both directions together.** The capturer and the injector as one machine, with the capturer as the gate of the
  packets that arrive (`Desktop`).
- **The send-stall tracker** (`Stall`).

Four modules say independently of those what each operation answers, byte by byte and number by number: `WireFormat`,
`ClipFormat`, `EventTable` (local events) and `PacketTable` (received packets).

`dafny verify dfyconfig.toml` checks everything. `Bytes` and `PackageTypes` hold what the other modules share.

## How the model is built

Code that updates state step by step is a class or a method with loops, proved against a specification function;
the properties are then proved about those functions over whole lists, runs or schedules. Concurrency is a state
machine whose steps are the atomic operations of the Go code: the load, store and add of the ID counter, taking the
lock, one write, and releasing it. The two handshake peers take turns in any order over FIFO channels. One event of
the ownership machine is one atomic step.

Assumptions, each a parameter or a stated law rather than an axiom:

- The block cipher is any pair of functions with `dec(enc(b)) == b` on 16-byte blocks; the chaining mode is
  section 6.2 of NIST SP 800-38A.
- Compression is any pair of functions where inflating a compressed text followed by zero bytes gives the text back
  (the final-block bit, section 3.2.3 of RFC 1951); `ClipWire.LawfulCodecExists` shows that this can be met.
  (That the premises of the re-entry theorem can be met is shown by `OwnershipRuns.ReentryPossible`.)
- The HTML and RTF strippers are arbitrary functions. The exact characterisation of which texts survive asks that
  each of them, by some measure that gives every character a size (characters or UTF-8 bytes, say), never lengthens
  its input.
- Floating point is modelled by real numbers, time by integer milliseconds, and a zero time by an empty option.
- The virtual-key table is an arbitrary partial function. The activation and reclaim gates
  are inputs of a session, and are the capturer's answers in `Desktop`.
- Channels are reliable and in order, and device writes succeed.

## What came out different from what one would expect

- **Packet IDs.** The wrap test, the reset and the increment are three operations. IDs stay positive in every
  schedule exactly when at most 256 goroutines send (`PacketIds.PositiveIffAtMost256`).
- **Checksum.** It always covers bytes 2-31. A changed byte is noticed exactly when it is one of bytes 1-31; the type
  byte and the extension of a 64-byte packet are not protected (`Stamp.CorruptionDetected`).
- **File names.** A path that begins with `text` or `image`, in any case, is taken for an in-band announcement, so
  such a file is not received (`FileTransfer.HeaderRoundTrip`). Lower-casing also maps the dotted capital I to `i`.
- **AltGr.** Left and right Ctrl share one slot, so pressing the second directly after the first loses the first
  (`Chords.SecondCtrlLosesFirst`); AltGr pressed right after a held Ctrl has repeated loses that Ctrl
  (`Chords.AltGrLosesHeldCtrl`); and a real Ctrl pressed while AltGr is down can lose its release
  (`Chords.SwallowsRealRelease`). `Chords.AgreesIff` says exactly for which streams the injected events are the ones
  meant, and `Sessions.SessionInjectsWhatWasMeant` the same for a whole connection. A held key that only repeats is
  harmless and counts as meant.
- **Second X button.** The capturer sends its number in the high word and the handler looks for the bare number 2, so
  it arrives as the first X button (`Handler.ButtonArrives`).
- **Inbound gain.** There is no sub-unit carry. Every closed path without jumps and clamping ends where it started
  exactly when the longest step that fits the grid and the jump threshold is scaled without loss: for a gain below 16,
  when 4096 times its fraction is below one (`Inbound.ClosedPathsReturnIff`; at a gain of exactly one the reports are
  mirrored). The error is at most one unit for each packet (`Inbound.DriftBound`), and a retraced path always returns
  (`Inbound.Retrace`).
- **Send stall.** The comment in `internal/network/receiver.go` says that only a genuine stall trips the tracker. A
  queue that is refilled to the same depth trips it too (`Stall.SteadyTrafficIsFlagged`); the model follows the code.
- **Coalescing.** Deltas of one sign act like their sum, clamp included. For two deltas of any signs
  `Motion.MoveTwiceIff` says exactly when, and for an unclamped list `Motion.CoalesceIff` does so from the running
  totals alone; otherwise the total is the same but is split differently between position and carry.
- **Images.** An image is padded to 48 bytes and inflated if it happens to inflate. It arrives as it was sent exactly
  when it inflates, padded, to itself, or when it does not inflate and needs no padding (`ClipWire.ImageArrivesExactly`).

## Model

| member | source | states |
|---|---|---|
| `Packets.Marshal` | internal/protocol/packet.go:72-122 | the buffer filled in place is the 32- or 64-byte wire layout of the packet |
| `Packets.UnmarshalPacket` | internal/protocol/packet.go:126-172 | decodes a buffer of any length, or refuses one below 32 bytes |
| `Packets.MarshalRoundTrip` | internal/protocol/packet.go:72-172 | for every packet, decoding its wire form gives exactly the canonical packet: inactive payloads dropped, clipboard data padded or cut to 48 bytes, the name of a data-less clipboard packet inside those 48 bytes |
| `Packets.CanonicalSameWire` | internal/protocol/packet.go:72-172 | canonicalising loses nothing the wire carries and is idempotent |
| `Packets.UnmarshalRoundTrip` | internal/protocol/packet.go:72-172 | re-marshalling a decoded buffer gives it back if and only if its stamp bytes are clear and a payload-free type has zero payload bytes |
| `Packets.SetMachineName` | internal/protocol/packet.go:58-63 | the name array is overwritten in place with the name cut to 32 bytes and padded with spaces |
| `Packets.MachineNameRoundTrip` | internal/protocol/packet.go:58-68 | the peer reads the name back if and only if it has at most 32 bytes and does not end in a space; otherwise its right-trimmed first 32 bytes |
| `Stamp.StampPacket` | internal/protocol/crypto.go:64-71 | the checksum loop leaves the magic bytes and the 8-bit sum of bytes 2-31 in bytes 1-3 and nothing else changed |
| `Stamp.ValidatePacket` | internal/protocol/crypto.go:74-88 | the verdict, magic mismatch before checksum mismatch |
| `Stamp.ClearStamp` | internal/protocol/crypto.go:91-95 | bytes 1-3 are zeroed and nothing else changes |
| `Stamp.StampRoundTrip` | internal/protocol/crypto.go:64-95 | a stamped packet is accepted under exactly the magic numbers with the same top 16 bits, and clearing the stamp restores the marshalled buffer |
| `Stamp.CorruptionDetected` | internal/protocol/crypto.go:64-88 | changing one byte of an accepted packet is noticed if and only if it is one of bytes 1-31 |
| `Stream.EncryptBlock` | internal/protocol/stream.go:29-36 | every ciphertext block is the cipher of its plaintext block chained with the previous ciphertext block |
| `Stream.EncryptConcat` | internal/protocol/stream.go:29-36 | splitting a plaintext over aligned writes does not change the ciphertext |
| `Stream.DecryptEncrypt` | internal/protocol/stream.go:29-74 | decrypting with the same chaining block gives the plaintext back |
| `Stream.EncryptWriter.CryptBlocks` | internal/protocol/stream.go:33-34 | the block loop computes the chained encryption and leaves the chain at its last block |
| `Stream.EncryptWriter.Write` | internal/protocol/stream.go:29-36 | an aligned write extends the one encrypted stream of everything written; an unaligned one is refused and changes nothing |
| `Stream.DecryptReader.Read` | internal/protocol/stream.go:56-74 | one read consumes whole blocks, delivers at most the buffer, and loses what is left when the connection ends early |
| `Stream.DecryptReader.ReadFull` | internal/protocol/stream.go:56-74 | repeated reads fill the buffer exactly when enough ciphertext is left, consuming its length rounded up to a block |
| `Stream.ReadBack` | internal/protocol/stream.go:29-74 | any sequence of full reads returns the plaintext in order, each length starting on a fresh block, and succeeds if and only if the rounded lengths fit; at the end both chains agree |
| `Connection.Conn.AllocateId` | internal/network/client.go:278-281 | the next ID of an undisturbed sender, wrapping before the 32-bit limit |
| `Connection.Conn.SendPacket` | internal/network/client.go:276-289 | appends the stamped wire form of the numbered packet to the stream |
| `Connection.Conn.SendPackets` | internal/network/client.go:298-314 | appends the stamped wire forms of the whole batch, numbered consecutively |
| `Connection.Conn.RecvPacket` | internal/network/client.go:328-364 | reads 32 bytes, validates, reads 32 more for a big type, and decodes the cleared buffer, or fails as specified |
| `Connection.RecvOne` | internal/network/client.go:328-364 | receiving a sent packet yields its canonical form and its marshalled bytes and leaves the reader exactly behind it |
| `Connection.RecvStream` | internal/network/client.go:328-364 | for every list of packets, 32- and 64-byte ones mixed, receiving returns the canonical form of each in order; framing never slips |
| `WireFormat.PacketSizes` | internal/protocol/types.go:73-86 | which type numbers are 64 bytes long; all others are 32 |
| `WireFormat.HeaderLayout` | internal/protocol/packet.go:72-88 | type, cleared stamp, ID, source and destination at bytes 0, 1-3, 4, 8 and 12 of every packet |
| `WireFormat.PayloadLayout` | internal/protocol/packet.go:72-122 | which little-endian words of bytes 16-31 carry the mouse, keyboard and challenge fields, for which type numbers |
| `WireFormat.AreaLayout` | internal/protocol/packet.go:72-122 | every byte of the clipboard data and of the name in a 64-byte packet |
| `WireFormat.NameLayout` | internal/protocol/packet.go:58-63 | every byte of a padded name |
| `WireFormat.StampLayout` | internal/protocol/crypto.go:64-71 | every byte of the stamp; the rest of the buffer is unchanged |
| `WireFormat.ValidIffStamped` | internal/protocol/crypto.go:74-88 | a buffer is accepted if and only if bytes 1-3 are that stamp, and the magic number is the first reason to refuse it |
| `WireFormat.XorBit` | internal/protocol/stream.go:33-34 | each bit of the chaining operation is set if and only if the two bits differ |
| `WireFormat.DecryptBlock` | internal/protocol/stream.go:56-74 | every plaintext block of any ciphertext, forged or not, is the deciphered block chained with the ciphertext block before |
| `WireFormat.ReadSizes` | internal/protocol/stream.go:57-61 | a read asks for the most whole blocks that fit the buffer, and for one when none fits |
| `WireFormat.ReadIs` | internal/protocol/stream.go:56-74 | one read of an encrypted stream delivers the first bytes of its blocks that the buffer holds and is then exactly behind those blocks |
| `WireFormat.ReadsNothing` | internal/protocol/stream.go:63-67 | a read that the connection cannot fill fails and loses what was left |
| `WireFormat.NextIds` | internal/network/client.go:278-281 | the ID after every counter value |
| `WireFormat.NumberedAre` | internal/network/client.go:298-314 | every packet of a batch goes out in its place, changed in its number only, and which number that is |
| `WireFormat.ReceivesIffStamped` | internal/network/client.go:328-364 | the next packet on the stream is received if and only if it is stamped, and the reader is then exactly behind its 32 or 64 bytes |
| `WireFormat.RefusesUnstamped` | internal/network/client.go:344-346 | a packet with a wrong stamp is refused, whatever follows it |
| `WireFormat.RefusesShort` | internal/network/client.go:328-364 | no packet is received from fewer bytes than its size |
| `WireFormat.RefusesCorruption` | internal/network/client.go:328-364 | a sent packet with one byte changed on its way is refused if and only if that is one of bytes 1-31 |
| `Senders.OrderedStep` | internal/network/client.go:276-314 | every atomic step keeps mutual exclusion and keeps the log a prefix of the whole batches in lock order |
| `Senders.WholeBatchesOnTheWire` | internal/network/client.go:276-314 | in every schedule of any number of goroutines and at every moment the receiver decodes exactly what has been written: the whole batches in lock order, cut short at most inside the batch of the current lock holder |
| `Senders.NoDeadlock` | internal/network/client.go:276-314 | while some goroutine is sending, some goroutine can step |
| `PacketIds.IdsInRange` | internal/network/client.go:276-308 | with T senders, at most 256, every ID in a run of any length lies in 1 .. 0x7FFFFF00 + T - 1 |
| `PacketIds.MaxIdAttained` | internal/network/client.go:276-308 | that bound is reached by a concrete schedule for every number of senders |
| `PacketIds.PositiveIffAtMost256` | internal/network/client.go:276-308 | IDs are positive in every schedule if and only if there are at most 256 senders |
| `Handshake.ChooseMachineId` | internal/network/client.go:90-94 | the ID is never 0 or 255, is the big-endian value of the first four random bytes if and only if that is neither, and is 1 otherwise |
| `Handshake.MachineIdBytes` | internal/network/client.go:90-94 | the random bytes in the ID, highest first |
| `Handshake.ChallengeAndAnswer` | internal/network/client.go:198-257 | type, addressee and name of a challenge and of its answer, whose words add up to all ones |
| `Handshake.DoHandshake` | internal/network/client.go:197-270 | against any incoming packets it succeeds exactly when the first acknowledgement among the next 20 answers the challenge, having sent 10 challenges and one answer for each challenge read before |
| `Handshake.AnswersChallenges` | internal/network/client.go:228-252 | against any incoming packets each challenge is answered once, in order, and nothing else is |
| `Handshake.HandshakeCompletes` | internal/network/client.go:197-270 | in every schedule of two peers nobody fails or gets stuck, both are done after exactly 62 steps, and a peer that is done, first or second, has sent 20 packets, read 11 of its 20, and holds the other's ID and name |
| `Handshake.SpareAnswers` | internal/network/client.go:197-270 | what is left in each channel afterwards is exactly the answers to challenges 2 to 10, in order |
| `Handshake.MethodAgrees` | internal/network/client.go:197-270 | the peer of the schedules and the method send and accept the same packets |
| `Utf16.EncodeUTF16LE` | internal/clipboard/clipboard_linux.go:677-692 | the loop computes the UTF-16LE form, surrogate pairs included |
| `Utf16.DecodeUTF16LE` | internal/clipboard/clipboard_linux.go:695-718 | the loop decodes up to a null unit, drops an odd byte and replaces lone surrogates |
| `Utf16.Utf16RoundTrip` | internal/clipboard/clipboard_linux.go:677-718 | decoding an encoded text followed by any number of zero bytes gives the text up to its first NUL, so the text itself if and only if it has none |
| `ClipFormat.CharUnits` | internal/clipboard/clipboard_linux.go:677-692 | the bytes of every character |
| `ClipFormat.FirstUnit` | internal/clipboard/clipboard_linux.go:695-718 | what every first unit of any byte sequence decodes to, lone surrogates and nulls included |
| `ClipFormat.OddByte` | internal/clipboard/clipboard_linux.go:695-698 | an odd byte at the end is dropped |
| `ClipText.ExtractClipboardText` | internal/clipboard/clipboard_linux.go:563-596 | the loop picks the last plain section, else stripped HTML, else stripped RTF, else the raw text when no marker was seen |
| `ClipText.SplitJoin` | internal/clipboard/clipboard_linux.go:563-575 | splitting at the separator loses nothing and leaves no separator in a part |
| `ClipFormat.PayloadIs` | internal/clipboard/clipboard_linux.go:281-283 | marker, text and separator, letter by letter |
| `ClipFormat.SplitOfJoin` | internal/clipboard/clipboard_linux.go:563-575 | parts without a separator are what their joined text splits into |
| `ClipFormat.PastesFirstOf` | internal/clipboard/clipboard_linux.go:563-596 | for every message: of its last plain, HTML and RTF sections the first that is not empty is pasted, a message without sections as it is, and nothing otherwise |
| `ClipText.PayloadRoundTrip` | internal/clipboard/clipboard_linux.go:281-283 | a text without the separator survives the payload format, whatever the strippers do; no separator can straddle its end |
| `ClipText.PayloadRoundTripExactly` | internal/clipboard/clipboard_linux.go:281-283 | when each stripper never lengthens its input by some measure, a text survives if and only if it does not contain the separator |
| `ClipWire.ChunkPackets` | internal/clipboard/clipboard_linux.go:289-304 | the loop yields one packet for each 48 bytes of the zero-padded data, then the end marker |
| `ClipFormat.ChunkLayout` | internal/clipboard/clipboard_linux.go:289-304 | how many packets a message is, and every byte, type and address of each |
| `ClipFormat.ChunkIs` | internal/clipboard/clipboard_linux.go:334-358 | what every packet does to a message being received, the drop past 2097152 bytes included |
| `ClipFormat.DeliveredIs` | internal/clipboard/clipboard_linux.go:354-404 | what every completed message delivers, inflated or not |
| `ClipWire.Manager.HandleChunk` | internal/clipboard/clipboard_linux.go:334-351 | appends the chunk, or drops the whole message past 2 MB |
| `ClipWire.Manager.HandleEnd` | internal/clipboard/clipboard_linux.go:354-404 | delivers what the buffered bytes stand for, or nothing, and goes idle |
| `ClipWire.Manager.HandlePacket` | internal/clipboard/clipboard_linux.go:90-129 | chunk and end packets drive the reassembly, and no other packet changes it |
| `ClipWire.SendText` | internal/clipboard/clipboard_linux.go:310-331 | the packets of the compressed payload, or nothing past the 1 MB cap |
| `ClipWire.MessageDelivered` | internal/clipboard/clipboard_linux.go:289-404 | any message within the sender's 1 MB cap is reassembled whole, the 2 MB limit never trips, and the receiver is idle again |
| `ClipWire.TextMessage` | internal/clipboard/clipboard_linux.go:310-404 | what any text turns into after payload, UTF-16LE, compression, padding and all the way back |
| `ClipWire.TextArrives` | internal/clipboard/clipboard_linux.go:310-404 | a non-empty text without NUL and without the separator arrives unchanged, whatever the strippers do |
| `ClipWire.TextArrivesExactly` | internal/clipboard/clipboard_linux.go:310-404 | when each stripper never lengthens its input by some measure, those are the only texts that arrive unchanged |
| `ClipWire.ImageArrivesExactly` | internal/clipboard/clipboard_linux.go:354-404 | exactly which images arrive as they were sent, padding and optional inflation included |
| `ClipChannel.FeedItem` | internal/clipboard/clipboard_linux.go:310-404 | one hold of the send lock takes the reassembly from idle to idle and delivers its own message only |
| `ClipChannel.MessagesArriveInLockOrder` | internal/network/client.go:291-314 | for every schedule of goroutines sending texts, images and other packets and at every moment, decrypting, unframing and reassembling the bytes on the wire delivers, in lock order, what each text and padded image stands for: all messages when the lock is free, all but at most the last when it is held |
| `FileTransfer.HeaderRoundTrip` | internal/clipboard/filetransfer_linux.go:117-138 | the header parses back to size and path if and only if the size is 1 byte to 100 MB, the text fits 1024 bytes, the path has no NUL and does not name an in-band text or image |
| `ClipFormat.AnnouncementIs` | internal/clipboard/filetransfer_linux.go:232-270 | every byte of the header, and the content with at most 15 zeros after it |
| `ClipFormat.SizeIs` | internal/clipboard/filetransfer_linux.go:128-131 | which texts are sizes, and which sizes they are |
| `ClipFormat.HeaderIs` | internal/clipboard/filetransfer_linux.go:121-138 | what every header with a star is taken for |
| `ClipFormat.NoStarIs` | internal/clipboard/filetransfer_linux.go:124-127 | a header without a star is refused |
| `ClipFormat.InBandNames` | internal/clipboard/filetransfer_linux.go:132-135 | which names announce a text or an image, letter by letter |
| `FileTransfer.SendFileStream` | internal/clipboard/filetransfer_linux.go:224-273 | succeeds if and only if the path is not empty and the file still has its size; then exactly header and padded body have been written |
| `FileTransfer.SendBlock` | internal/clipboard/filetransfer_linux.go:246-270 | one turn of the loop writes the next stretch of the file, zero-padded if it is the last; every accepted write is aligned |
| `FileTransfer.SendBody` | internal/clipboard/filetransfer_linux.go:243-272 | the loop ends and has written the padded content, or the file has shrunk |
| `FileTransfer.CopyBody` | internal/clipboard/filetransfer_linux.go:148-150 | the capped copy loop over the block-rounding reader |
| `FileTransfer.CopyExact` | internal/clipboard/filetransfer_linux.go:148-150 | it yields exactly the body and swallows the padding, from any point of the body and whatever follows |
| `FileTransfer.CopyExactIff` | internal/clipboard/filetransfer_linux.go:148-150 | every body of a size is copied faithfully if and only if the buffer has at least 16 bytes or holds the whole body |
| `FileTransfer.PullFile` | internal/clipboard/filetransfer_linux.go:117-150 | reads the header and the body it announces, or refuses |
| `FileTransfer.FileRoundTrip` | internal/clipboard/filetransfer_linux.go:103-153 | a file is received byte for byte under its path if and only if its header is acceptable, and then the stream is left just after the padding |
| `Motion.MoveTwiceIff` | internal/capture/capture_linux.go:804-846 | for every position, carry and pair of deltas: exactly when two deltas act like their sum, clamp included |
| `Motion.MoveTwice` | internal/capture/capture_linux.go:804-846 | two deltas of one sign always do, whatever the sign of the carry and even when the clamp is hit between them |
| `Motion.Coalesce` | internal/capture/capture_linux.go:804-846 | any list of deltas of one sign leaves the position and carry that their sum leaves |
| `Motion.CoalesceIff` | internal/capture/capture_linux.go:836-846 | an unclamped list of deltas of any signs acts like its sum if and only if that sum with the first carry is whole, or the running total came to its last unit from the side on which the sum counts |
| `Motion.OppositeSignsSplitDifferently` | internal/capture/capture_linux.go:836-846 | two deltas of mixed signs for which it does not |
| `Motion.NoDrift` | internal/capture/capture_linux.go:836-846 | without clamping, position plus carry is the start plus all deltas, with a carry below one |
| `Motion.ClosedPath` | internal/capture/capture_linux.go:836-846 | an unclamped closed path from a whole position returns to it exactly |
| `Motion.MoveIs` | internal/capture/capture_linux.go:836-846 | position and carry after any delta, the truncation toward zero and the clamp to 0..65535 included |
| `Motion.Scroller.Feed` | internal/capture/portal_wayland.go:649-653 | drains whole notches and keeps total pixels = 30 for each notch + remainder |
| `Motion.ScrollConserves` | internal/capture/portal_wayland.go:630-653 | over any run of touchpad events the pixels fed are 30 for each notch sent plus a remainder below a notch |
| `Motion.FeedScroll` | internal/capture/portal_wayland.go:623-641 | a wheel event goes on as it is and a touchpad event through both accumulators, the vertical direction turned round |
| `Ownership.Capturer.constructor` | internal/capture/capture_linux.go:116-127 | the initial state |
| `Ownership.Capturer.SetActiveTo` | internal/capture/capture_linux.go:130-150 | taking the cursor back disarms both gates and ends the grace period; anything else only sets the flag |
| `Ownership.Capturer.SetAccelMultiplier` | internal/capture/capture_linux.go:297-305 | multipliers that are not positive are ignored |
| `Ownership.Capturer.EnterRemoteEdge` | internal/capture/capture_linux.go:157-181 | the cursor starts a tenth of the grid inside the crossed edge at the clamped fraction, with no carry and the return gate closed |
| `Ownership.Capturer.Accepts` | internal/capture/capture_linux.go:270-292 | a notice is accepted exactly when the cursor is here or within the margin of the crossed edge |
| `Ownership.Capturer.PollCursorEdge` | internal/capture/capture_linux.go:362-486 | one poll arms the gate, crosses, or does nothing |
| `Ownership.Capturer.CrossEdge` | internal/capture/capture_linux.go:426-465 | the crossing of the poller, at the polled row on the grid |
| `Ownership.Capturer.AddMotion` | internal/capture/capture_linux.go:836-846 | each axis moves by the truncated sum, clamped, and keeps the rest as carry |
| `Ownership.Capturer.ClampRemote` | internal/capture/capture_linux.go:804-817 | both coordinates are clamped to 0..65535 |
| `Ownership.Capturer.AfterMotionLocked` | internal/capture/capture_linux.go:910-972 | arms the return, returns with a warp, or sends the new position |
| `Ownership.Capturer.LocalReentry` | internal/capture/capture_linux.go:976-990 | the pixel just inside the edge the cursor left through |
| `Ownership.Capturer.HandleRel` | internal/capture/capture_linux.go:848-870 | a relative event moves one axis or scrolls at the current position |
| `Ownership.Capturer.HandleRelEvent` | internal/capture/capture_linux.go:776-794 | the same behind the ownership and grace tests |
| `Ownership.Capturer.FeedMotionEvent` | internal/capture/capture_linux.go:893-905 | both axes move at once, with one packet |
| `Ownership.Capturer.FeedWheelEvent` | internal/capture/capture_linux.go:875-887 | one scroll packet for each axis that moved |
| `Ownership.Capturer.HandleButtonEvent` | internal/capture/capture_linux.go:1011-1043 | button presses and releases become one packet at the current position, repeats none |
| `EventTable.PollCrossesIff` | internal/capture/capture_linux.go:391-426 | a poll crosses if and only if the cursor is here, the gate is armed, 100 ms have passed and the pointer is on the named columns of the shared edge |
| `EventTable.PollCrossing` | internal/capture/capture_linux.go:422-464 | the whole state and output after a crossing, on the grid line of the row |
| `EventTable.PollStays` | internal/capture/capture_linux.go:391-426 | any other poll sends nothing and re-arms the gate if and only if it sees the pointer more than 20 pixels inside |
| `EventTable.PortalCrossing` | internal/capture/capture_linux.go:157-181 | the whole state after a portal crossing of each edge, at the clamped fraction |
| `EventTable.GatesOpenIff` | internal/capture/capture_linux.go:251-292 | exactly where the cursor must be for a notice, and the request for a reclaim |
| `EventTable.ActivationIs` | internal/capture/capture_linux.go:130-150 | the whole state after taking or losing the cursor, and after a new multiplier |
| `EventTable.QuietEvents` | internal/capture/capture_linux.go:776-786 | nothing is forwarded from here or within 100 ms of a crossing |
| `EventTable.MotionMoves` | internal/capture/capture_linux.go:848-905 | which axis each motion moves and how far, for every multiplier and screen |
| `EventTable.AfterMotionIs` | internal/capture/capture_linux.go:910-972 | the whole state and output after a forwarded motion: exactly when the way back opens and when the cursor takes it, for each edge |
| `EventTable.WarpAlong` | internal/capture/capture_linux.go:976-990 | the pixel along the edge that a return warps to |
| `EventTable.WheelIs` | internal/capture/capture_linux.go:859-887 | what wheel events send, and that other relative events send nothing |
| `EventTable.ButtonIs` | internal/capture/capture_linux.go:1011-1043 | the message code and wheel data of every button event |
| `OwnershipRuns.SelfReturnNeedsExcursion` | internal/capture/capture_linux.go:910-968 | in every run, a return the machine decides on itself happens only after a motion since the last crossing took the cursor strictly past the switch margin; the state it returns from would accept a notice too |
| `OwnershipRuns.CrossingNeedsInsidePoll` | internal/capture/capture_linux.go:391-458 | in every run, after a return the poller crosses again only if a poll since then saw the cursor more than 20 pixels inside |
| `OwnershipRuns.CoordinatesInRange` | internal/capture/capture_linux.go:804-972 | in every run with on-screen polls the virtual cursor and every mouse packet sent stay in 0..65535 and the carry below one |
| `OwnershipRuns.CrossingInRangeIff` | internal/capture/capture_linux.go:426-457 | a polled crossing starts on the grid if and only if the polled row is on the screen |
| `OwnershipRuns.NoticeNeedsApproach` | internal/capture/capture_linux.go:270-292 | a notice is rejected right after a crossing and accepted only once a motion since then came within the margin of the crossed edge |
| `OwnershipRuns.AlongAxisFolds` | internal/capture/capture_linux.go:836-905 | during any remote session the axis along the crossed edge, whichever edge it is, is the fold of the forwarded deltas |
| `OwnershipRuns.RowRoundTrip` | internal/capture/capture_linux.go:976-990 | grid and back gives the same row or the one above, the same if and only if the height divides 65535 times the row |
| `OwnershipRuns.PortalCrosses` | internal/capture/portal_wayland.go:521-541 | the portal's fraction for a pixel of any edge is the same grid line |
| `OwnershipRuns.ReentersWhereItLeft` | internal/capture/capture_linux.go:945-990 | crossing any of the four edges, any remote session with zero net unclamped motion along it, and a return: the warp that is output goes to the same pixel along the edge or the one before |
| `OwnershipRuns.ReentryRearms` | internal/capture/capture_linux.go:391-458 | in every run of the polling driver, so does the poll that sees the pointer where its own return warped it |
| `Keyboard.HeldIff` | internal/input/uinput.go:319-364 | a code is held if and only if some logged press of it is never released |
| `Keyboard.VirtualKeyboard.KeyDown` | internal/input/uinput.go:319-327 | logs the press and keeps the pressed set equal to the codes the log leaves down |
| `Keyboard.VirtualKeyboard.KeyUp` | internal/input/uinput.go:330-338 | logs the release and keeps that invariant |
| `Keyboard.VirtualKeyboard.ReleaseAll` | internal/input/uinput.go:343-364 | logs one release for each held code, in some order, and leaves nothing pressed |
| `Keyboard.AllReleased` | internal/input/uinput.go:343-364 | whatever that order, afterwards every press in the log has a later release |
| `Chords.RunState` | internal/network/handler.go:324-353 | what the transducer remembers can be read off the stream: the last event if it is a Ctrl press, and whether a chord is unclosed |
| `Chords.AgreesIff` | internal/network/handler.go:271-353 | log plus held-back press equals the stream without repeated Ctrl presses and synthetic Ctrl pairs, at every moment, if and only if the stream is orderly |
| `Chords.TidyAgrees` | internal/network/handler.go:271-353 | it does on every stream where a Ctrl event right after a Ctrl press releases or repeats that key, the first Ctrl event after a chord releases its key or repeats the chord, and no chord begins with a repeat |
| `Chords.SecondCtrlLosesFirst` | internal/network/handler.go:344-346 | pressing the other Ctrl directly after the first loses the first |
| `Chords.AltGrLosesHeldCtrl` | internal/network/handler.go:344-351 | AltGr right after a repeated Ctrl loses that Ctrl |
| `Chords.SwallowsRealRelease` | internal/network/handler.go:338-341 | a Ctrl pressed for real while AltGr is down stays down after its release |
| `Inbound.InjectedOnGrid` | internal/network/handler.go:215-234 | a report on the grid is injected on the grid whatever came before and whatever the gain, and unchanged when the gain is one |
| `Inbound.Retrace` | internal/network/handler.go:227-232 | a smooth path retraced report by report ends exactly where it started |
| `Inbound.DriftBound` | internal/network/handler.go:227-232 | after n smooth reports the injected cursor is at most n units from the exact gain on each axis |
| `Inbound.ExactPath` | internal/network/handler.go:227-232 | when the longest step that fits scales without loss, every smooth path moves the injected cursor by the whole part of the gain times the reported move |
| `Inbound.WalkAndReturn` | internal/network/handler.go:227-232 | otherwise walking out by single units and straight back ends one unit short |
| `Inbound.ClosedPathsReturnIff` | internal/network/handler.go:227-232 | every smooth closed path returns if and only if that step scales without loss: for gains below 16, if 4096 times the fraction is below one |
| `Inbound.ClosedPathDrifts` | internal/network/handler.go:227-232 | a path for the gain 1.5, from any column |
| `Inbound.NotchesArrive` | internal/network/handler.go:181-196 | whole notches arrive as sent, and no scroll is lost or changes direction |
| `PacketTable.NotchesAre` | internal/network/handler.go:181-196 | the notches of every wheel delta |
| `PacketTable.SnapsTo` | internal/network/handler.go:215-226 | exactly which reports snap the cursor, the 32-bit difference included |
| `PacketTable.GainsBy` | internal/network/handler.go:227-232 | where every other report takes it |
| `Handler.PendThenKey` | internal/network/handler.go:271-353 | Ctrl handling, flush and the key itself make one step of the chord transducer |
| `Handler.Injector.FlushPendingCtrl` | internal/network/handler.go:297-303 | the held-back press goes out, if there is one |
| `Handler.Injector.HandlePendingCtrl` | internal/network/handler.go:324-353 | which events are consumed, deferred, replayed as a tap or suppressed |
| `Handler.Injector.HandleKeyboard` | internal/network/handler.go:271-295 | one transducer step, or no effect at all for a key the layout does not know |
| `Handler.Injector.MoveInbound` | internal/network/handler.go:215-234 | follows one report and injects the position |
| `Handler.Injector.HandleMouse` | internal/network/handler.go:134-204 | move, then click; scroll without moving; nothing for other messages |
| `Handler.Injector.ReleaseAllKeys` | internal/network/handler.go:258-269 | forgets the half-built chord and lifts every held key, in some order |
| `Handler.Injector.HandlePacket` | internal/network/handler.go:66-125 | every packet either is one step of the specification or, for a hide or an accepted activation, lifts all keys after the held-back press went out; an activation also makes the tracker snap |
| `PacketTable.RoutedByType` | internal/network/receiver.go:104-153 | for every type number: dropped by the loop, lifting all keys, or handled |
| `PacketTable.LiftIs` | internal/network/handler.go:77-96 | the log, chord and tracker after a lift |
| `PacketTable.DropIs` | internal/network/handler.go:253-269 | the log, chord and tracker after a lost connection |
| `PacketTable.OtherIs` | internal/network/handler.go:66-71 | every packet that is no key and no mouse packet only lets a press held back go |
| `PacketTable.CallbackIs` | internal/network/handler.go:77-114 | which type numbers run which callback |
| `PacketTable.ReplyIs` | internal/network/receiver.go:105-149 | which type numbers are answered, with what and to whom |
| `PacketTable.RepliesAre` | internal/network/receiver.go:105-149 | the answers of a session are those to its packets, in order |
| `PacketTable.KeyIs` | internal/network/handler.go:271-361 | for every key and every flag byte: code, press or release, Ctrl and right Alt |
| `PacketTable.KeyFromRest` | internal/network/handler.go:271-361 | what every key packet injects from rest |
| `PacketTable.MouseIs` | internal/network/handler.go:134-204 | what every message code injects, and when the tracker moves |
| `Handler.ButtonArrives` | internal/network/handler.go:164-180 | a button sent by the capturer comes out as the same button if and only if it is not the second X button |
| `Sessions.Dispatch` | internal/network/receiver.go:104-153 | one turn of the loop: what reaches the handler, and what that does |
| `Sessions.ReceiveLoop` | internal/network/receiver.go:89-155 | the loop runs every packet up to the first ByeBye through the handler and answers greetings and heartbeats |
| `Sessions.ReceivedIsRun` | internal/network/receiver.go:94-153 | in every session, hides and accepted activations included, the handler has been the chord transducer since the last lift |
| `Sessions.SessionInjectsWhatWasMeant` | internal/network/handler.go:66-361 | at every moment of every session the log plus held-back press is, segment by segment, the stream that was meant with the releases of each lift in between, if and only if every segment is orderly |
| `Sessions.TidySession` | internal/network/handler.go:66-361 | tidy segments are enough |
| `Sessions.LiftLeavesNothingDown` | internal/network/handler.go:77-96 | after every lift of a session, before the next segment begins, every logged press has a later release and nothing is pending or suppressed |
| `Sessions.DropLeavesNothingDown` | internal/network/handler.go:253-269 | the same after a disconnect |
| `Desktop.Arrive` | cmd/mwb/main.go:190-224 | one packet through the wiring of both directions: the capturer answers the gate, the handler takes the packet, and the callback gives the capturer the cursor |
| `Desktop.TakesIff` | cmd/mwb/main.go:190-224 | exactly which packets hand over the cursor |
| `Desktop.CapIsRun` | cmd/mwb/main.go:190-224 | whatever arrives, the capturer goes through a run of the ownership machine |
| `Desktop.RequestStep` | cmd/mwb/main.go:190-192 | a request within 8192 units of the shared edge takes the cursor and any other does nothing; neither lifts keys |
| `Desktop.OtherPackets` | cmd/mwb/main.go:190-224 | no other packet reaches the capturer |
| `Desktop.LiftNeedsApproach` | cmd/mwb/main.go:190-204 | in every run of both directions, while the remote owns the cursor a switch notice lifts keys and takes the cursor only after a motion since the crossing came within the margin of the crossed edge; any other notice only lets a held-back press go |
| `Desktop.CrossingAfterTaking` | cmd/mwb/main.go:190-224 | after a packet has given the cursor back, the poller crosses again only if a poll since then saw the cursor more than 20 pixels inside |
| `Stall.SendStallTracker.Stalled` | internal/network/receiver.go:31-37 | one sample: the new state and the verdict |
| `Stall.StalledIff` | internal/network/receiver.go:24-37 | for every history with ordered times, the answer is yes if and only if over some stretch longer than 15 seconds, ending here, the queue was never empty and never shrank |
| `Stall.SteadyTrafficIsFlagged` | internal/network/receiver.go:20-37 | a queue refilled to the same depth is flagged at the fourth 5-second sample, not before |

## Left out

- Sockets, dialling, deadlines, accept and reconnect loops, partial and failed writes: I/O plumbing around the model.
- Key derivation, AES, Deflate and the random number generator: library code, reduced to the laws above.
- The clipboard tools, image conversion, echo suppression and the choice between clipboard formats: foreign commands,
  and a fingerprint that looks only at the length and the first 100 bytes.
- Pulling, pushing or sending the clipboard in the background when the peer announces or asks for one: which of the
  modelled transfers is started.
- The connection set-up of a file transfer and the local name a received file is stored under.
- The HTML and RTF strippers: naive text filters with no clean specification.
- The device reports after each event, the uinput set-up and device errors.
- The burst of five mouse packets after a crossing, and the hotkey: timing-driven, no influence on ownership.
- The forwarding of keyboard keys from the local machine: a table lookup.
- The portal and libei plumbing; a Wayland crossing enters the model as the EnterRemote event.
- Parking the cursor after a declined crossing and the safe entry position: one assignment each.
- PacketTable.GainsBy: does not cover a scaled difference beyond 32 bits, which Go leaves to the platform.
- Interleavings finer than one ownership event: the code tests ownership before it takes its lock.
- Ownership.Capturer.PollCursorEdge: does not model a poll that crosses on a screen of height zero, where Go leaves the
  conversion of the quotient to the platform; nor does Ownership.Capturer.CrossEdge.
- Ownership.Capturer.AddMotion: does not model a scaled delta beyond 32 bits, which Go leaves to the platform.
- Inbound.InjectedOnGrid: reads a scaled difference beyond 32 bits as wrapped, which Go leaves to the platform.
- Handshake.HandshakeCompletes: does not model the ten-second read deadline or the block exchanged before it.
- Mutual exclusion of ownership between two machines: a return the machine decides on itself notifies nobody.
- Packet types with no behaviour (drag and drop, screen capture): only logged.
