# Byte buffers of the IOCP server library: a Dafny model

The server moves every byte through three small structures, and a connection is a pipeline of them:

- **`ringBuffer`**, a circular queue over a power-of-two array whose pointers are masked, not compared. One
  thread may push while another pops, with no lock.
- **`serializer`**, a linear buffer with two cursors that doubles when it is full, a typed codec
  (`<<`, `>>`), a five-byte header with a check sum, and a two-key byte cipher.
- **`packet`**, a reference-counted handle on pooled serializers that lives beside bare pointers which carry
  references of their own.

On top of them `session::recvIO`, `recved`, `recvedPacket` and the worker loop cut the received byte stream into
packets, and `collectSendPacket`, `sendIO` and `sended` send packets and release them. The model has one file per part:
| file | content |
|---|---|
| `Bits.dfy`, `Memory.dfy`, `Options.dfy` | `&`, `^` and narrowing conversions on two's-complement integers; `memmove`; a value that may be missing |
| `Ring.dfy` | the masked pointer expressions, and the reference queue they stand for |
| `RingBuffer.dfy` | the class, method by method |
| `Spsc.dfy` | the same `push`, `pop` and `front` as a two-thread state machine |
| `Codec.dfy` | what `<<` writes and `>>` makes of it |
| `CodecTable.dfy` | the same kind by kind, with widths, ranges and bytes written out |
| `SerializerModel.dfy` | growth, cursor moves and whole runs, on values |
| `Wire.dfy` | header, check sum, cipher, payload placement |
| `WireFormat.dfy` | the frame byte by byte, with the numbers written out |
| `WireChanges.dfy` | what a byte changed on the wire does to the plain text, and when the check sum shows it |
| `Serializer.dfy` | the class, with addresses |
| `PacketModel.dfy`, `Packet.dfy` | the ownership state machine, and the packet and pool classes that perform its steps |
| `Session.dfy` | framing on values, the receiver with its bounded ring, end-to-end delivery, and the session class |
| `SendProtocol.dfy` | `sendIO` and completions run by any number of workers, as a state machine |
| `Sender.dfy` | what a completed send releases, on values, and the class |

## What the source does that its callers do not expect

These are results of the model. Each is proved together with the exact condition under which the code does what
its callers rely on.

- **`resize` loses the tail.** `serializer.cpp:19` moves `headPtr` before `:20` takes the length from it, so
  `tailPtr` keeps its old address and lies outside the new block. The model has both orders: the `Rule`
  `AsWritten` is the source, `LengthSaved` takes the length first. Under `AsWritten` a write does its job exactly
  when it needs no growth (`PushAppendsExactlyWhen`, `AsWrittenExactlyWhen`, `RoundTrip`, with the concrete case
  `TailLostExample`). The growth, amortisation and round-trip results across growths are about `LengthSaved`.
  The model stops (`Wild`) at the first access through a tail that left the block.
- **`push` narrows its length to `int`.** From 2^31 bytes on the tail moves by something else
  (`PushAppendsExactlyWhen`).
- **A growth removes the header room.** `getPayload()` points at the payload exactly when nothing grew
  (`PayloadPlacement`).
- **`recved` refuses a transfer that fills the ring exactly,** and the worker then posts no further receive, so the
  connection stops although `recvIO` had offered that space. Whether it happens depends on how the system cuts the
  stream into transfers (`CutMatters`: two frames of 130 and 125 bytes). No cut of a stream is refused exactly when
  the bytes waiting in the ring and the stream together are fewer than the ring's capacity, 255 for a session
  (`NoCutRefusedExactlyWhen`). So every cut delivers a list of messages exactly when all their frames together
  are shorter than that (`EveryCutDeliversExactlyWhen`), and some cut does exactly when each frame by itself is
  (`SomeCutDeliversExactlyWhen`); a frame as long as the capacity never comes out (`NoLongFrame`). What comes out
  before a refusal is right in any case (`RunIsDrainOfTaken`, `ReceivedIsSent`).
- **The worker loop does not always end.** It ends exactly when the frames of the ring's contents do not lead to a
  size field of -5 (`SpinsExactlyWhen`, `Session.TakeFrames`): there `session.cpp:346` finds 0 bytes to be enough, and
  `recvedPacket` succeeds without taking one. Five bytes do it (`SpinningHeader`). Over runs it does not depend on the cut:
  a run that is not refused ends up spinning exactly when the whole stream leads to such a field
  (`RunIsDrainOfTaken`, `EveryCutSpinsExactlyWhen`), and no stream of sent frames does (`ReceivedIsSent`).
- **For size fields from -4 to -1 the handler gets five bytes of which fewer came from the ring.** The others are what an
  earlier packet left in the block; what the handler gets is the frame exactly when the frame has at least five bytes
  (`Session.RecvedPacket`).
- **`sended` relies on the reported size.** It subtracts packet sizes from an unsigned count until that is 0. It ends
  exactly when some number of packets uses the count up modulo 2^32 (`SettlesExactlyWhen`); with less than 4 GiB on
  the way, exactly when the total of the first few was reported (`SettlesExactlyOnTotals`, with a concrete case in
  `ShortSendGoesAstray`). Otherwise it goes on with a pointer it has already released. A send that went out wholly is
  released wholly exactly when its last packet is not empty (`WholeSendSettlesExactlyWhen`).
- **`sendIO` writes behind its array from 101 waiting packets on.** `sendBuffer` takes up to 255, which pile up while a
  send is in flight, and `session.cpp:110-121` fills an array of 100 with them. Whatever the other workers do, the worker
  that wins the flag comes to its `WSASend` with just the packets it found exactly when these are at most 100, and
  overruns the array exactly when they are more (`OverrunsExactlyWhen`, `Sender.SendIO`, with a run in `OverrunExample`).
  A run in which every worker finds at most 100 does not overrun (`NoOverrun`).
- **A packet can be left in `sendBuffer` with nobody to send it.** Exactly one step does that: a worker that saw an empty
  `sendBuffer` lowers `sendFlag` after another put a packet there, was turned away by the flag and went
  (`StrandedExactlyWhen`, for whole runs `RunStrandsExactlyWhen`, with runs in `StrandedExample`). A run in which that
  step always finds `sendBuffer` empty leaves nothing behind (`NothingLeftBehind`). What was left behind goes out with the
  next packet exactly when `sendBuffer` has room for one; when it is full, nothing is ever sent again
  (`StrandedUntilNextPacket`).
- **The check sum is a plain sum, and a changed byte reaches up to three bytes of the plain text.** A change in the
  last byte is always seen (`LastByteIsSeen`); any other exactly when the reached bytes no longer sum up as before, which at most six wire
  bytes and the two keys decide (`ChangeIsSeenExactlyWhen`). A flipped top bit is seen exactly in the last two bytes of a frame: before them the two
  changes it causes cancel out (`FlipIsSeenExactlyWhen`).
- **The size field is a `short`.** It tells the payload size exactly below 32768 bytes (`SentSizeField`). The
  cipher still round-trips beyond, because both ends use the same wrapped field (`WireRoundTrip`).
- **`packet(serializer*)` and `operator =(serializer*)` do not increment.** The books balance exactly when the
  pointer they are given carries a reference of its own (`StepConserves`, `ForbiddenStepBreaks`). Assigning a
  pointer to the buffer the packet already has is covered, as is self-assignment of a packet.

## Modelling choices

- Ring pointers are offsets from `buffer`; serializer pointers are addresses, because the lost tail is about
  addresses. Two blocks alive at once do not touch (`Separate`): both allocators keep bookkeeping between them.
- A `char` is held by its unsigned value. Only its low eight bits are ever observed.
- The protocol in `Spsc.dfy` makes every pointer load, every byte copied and every publication its own step,
  copies the bytes of one `memmove` in any order, starts from a ring with any contents, and assumes sequentially
  consistent memory. The session uses such a ring between `sendIO` and `sended`, whose workers take turns (`OneSender`).
- The pointer and size expressions are written with a bitwise `BitAnd`, and proved to be the cyclic step and
  distance; nothing about masks is assumed. The constructor's `pow(2, ceil(log2(n)))` is the integer exponent
  `CeilLog2`, which agrees with it for every size the constructor can represent.
- In `PacketModel.dfy` the ledger `raw` counts references held by bare pointers. The events change it: an increment
  adds to it, a release or a hand-over takes from it. A decrement through a packet looks at the counter, as the source
  does: at 0 the packet lets go, so one of the `n` references was its own. No event sets the ledger from the counters.
- `ringBuffer.h`, `serializer.h`, `packet.cpp`, `session.cpp` and `network.cpp` carry comments in a Korean code page,
  so they are not plain UTF-8 text. Where a member models lines of theirs, the table cites the place where a
  plain-text file of the library uses them, and the last column names the lines themselves.
- In `SendProtocol.dfy` a packet is a token and a completion settles the whole send; `Sender.dfy` says when that is what
  `sended` does. `sendBuffer` is a queue whose operations are single steps; between taking a packet from it and putting
  it into `sendedBuffer` a worker holds it, and others may run. After an overrun no step is possible.
- `ObjectPool` is not part of this repository; the model gives out either a serializer that came back or a new one.

## Model
| member | source | states |
|---|---|---|
| Bits.MaskIsMod | loginServer/lib/IOCP netServer/ringBuffer.cpp:65-66 | Masking any integer, negative ones too, with 2^k - 1 is the mathematical modulus by 2^k, so both offsets stay in range |
| Bits.CeilLog2IsLeast | loginServer/lib/IOCP netServer/ringBuffer.cpp:10-16 | The capacity exponent gives the least power of two not below the requested size, and that is below twice the size |
| Ring.MaskedGeometry | loginServer/lib/IOCP netServer/ringBuffer.cpp:93-97 | Size is the cyclic distance from head to tail, free size is the capacity minus that (`ringBuffer.h:93-116`), and the public freeSize without parentheses (`ringBuffer.h:32-34`) gives the same |
| Ring.MoveBackRestores | loginServer/lib/IOCP netServer/ringBuffer.cpp:65-84 | Moving a pointer by any m and then by -m restores it |
| Ring.EnqueueSlots | loginServer/lib/IOCP netServer/ringBuffer.cpp:97-111 | In every wrapped and unwrapped case the two-chunk copy of push puts byte i in the i-th slot after the tail |
| Ring.DequeueSlots | loginServer/lib/IOCP netServer/ringBuffer.cpp:132-148 | In every case the two-chunk copy of pop takes byte i from the i-th slot after the head |
| Ring.PushedContents | loginServer/lib/IOCP netServer/ringBuffer.cpp:97-119 | Storing at most the free size in two chunks leaves the queue as it was until the tail is published, and then appends exactly the data |
| Ring.PoppedContents | loginServer/lib/IOCP netServer/ringBuffer.cpp:132-156 | Loading at most the size in two chunks gives the oldest bytes, and publishing the head drops exactly them |
| Ring.MovedTailContents | loginServer/lib/IOCP netServer/ringBuffer.cpp:57-71 | Effect of any rear move on the queue: forwards it exposes memory, backwards it forgets the newest bytes, past the head the length wraps |
| Ring.CopiedContents | loginServer/lib/IOCP netServer/ringBuffer.cpp:25-31 | The chunks that copying takes over hold the same queue at the same offsets |
| RingBuffers.RingBuffer.constructor | loginServer/lib/IOCP netServer/ringBuffer.cpp:10-16 | An empty ring whose size is the least sufficient power of two |
| RingBuffers.RingBuffer.Copy | loginServer/lib/IOCP netServer/ringBuffer.cpp:18-32 | Same queue, offsets and capacity in a fresh array |
| RingBuffers.RingBuffer.Assign | loginServer/lib/IOCP netServer/ringBuffer.cpp:34-51 | The same for assignment from another ring |
| RingBuffers.RingBuffer.Size | loginServer/lib/IOCP netServer/ringBuffer.cpp:128-130 | The number of unread bytes (`ringBuffer.h:26-28`) |
| RingBuffers.RingBuffer.FreeSize | loginServer/lib/IOCP netServer/ringBuffer.cpp:93-95 | Size plus free size is bufferSize - 1 (`ringBuffer.h:32-34`) |
| RingBuffers.RingBuffer.DirectEnqueueSize | loginServer/lib/IOCP netServer/ringBuffer.cpp:97-102 | The free bytes that fit behind the tail before the array ends (`ringBuffer.h:54-62`) |
| RingBuffers.RingBuffer.DirectDequeueSize | loginServer/lib/IOCP netServer/ringBuffer.cpp:25-31 | The direct chunk followed by the start of the array is the whole queue (`ringBuffer.h:63-71`) |
| RingBuffers.RingBuffer.MoveRear | loginServer/lib/IOCP netServer/ringBuffer.cpp:57-71 | Clamped from above only; the queue grows by what memory holds, shrinks at its newest end, or wraps |
| RingBuffers.RingBuffer.MoveFront | loginServer/lib/IOCP netServer/ringBuffer.cpp:72-87 | Clamped from above only; drops the oldest bytes or takes back bytes already read |
| RingBuffers.RingBuffer.Push | loginServer/lib/IOCP netServer/ringBuffer.cpp:89-122 | Appends exactly the first min(n, free) bytes; every other slot keeps its byte |
| RingBuffers.RingBuffer.EnqueueRound | loginServer/lib/IOCP netServer/ringBuffer.cpp:57-71 | Storing at the tail for at most the contiguous length and moving the rear appends those bytes (`ringBuffer.h:50-62`) |
| RingBuffers.RingBuffer.PushDirectly | loginServer/lib/IOCP netServer/ringBuffer.cpp:57-71 | At most two such rounds are a push: the same number of bytes, the same queue, the same tail and the same array |
| RingBuffers.RingBuffer.PopByFront | loginServer/lib/IOCP netServer/ringBuffer.cpp:161-188 | front and then moving the front over what it copied (`ringBuffer.cpp:72-87`) is a pop: the same bytes, queue and head |
| RingBuffers.RingBuffer.Pop | loginServer/lib/IOCP netServer/ringBuffer.cpp:123-159 | Returns and removes exactly the first min(n, size) bytes; the rest of the caller's array is untouched |
| RingBuffers.RingBuffer.Front | loginServer/lib/IOCP netServer/ringBuffer.cpp:161-188 | Returns the same bytes and leaves the ring alone |
| Spsc.FifoInEveryRun | loginServer/lib/IOCP netServer/ringBuffer.cpp:89-188 | In every interleaving accepted bytes are removed bytes followed by the ring's contents; every pop and front returned a stretch of the accepted bytes, no longer than asked for and at least as much of it as the ring held at the call; every push took exactly what was free at its call |
| Spsc.ReadSinceCall | loginServer/lib/IOCP netServer/ringBuffer.cpp:123-188 | Whatever the producer does meanwhile, a pop or front of n bytes returns at most n, and at least as much of n as the ring held when it was called |
| Spsc.PushSinceCall | loginServer/lib/IOCP netServer/ringBuffer.cpp:89-122 | Whatever the consumer does meanwhile, a push takes as much of its data as was free when it was called |
| Spsc.SlotsDisjointInEveryRun | loginServer/lib/IOCP netServer/ringBuffer.cpp:89-148 | In every reachable state the slots of a push in progress are in bounds and are neither read by the consumer nor hold an unread byte |
| Spsc.StaleSnapshotsUnderestimate | loginServer/lib/IOCP netServer/ringBuffer.cpp:90-95 | A stale head copy underestimates the free space, a stale tail copy the size |
| Spsc.RefinesBoundedQueue | loginServer/lib/IOCP netServer/ringBuffer.cpp:89-188 | Every step is a step of a bounded queue of capacity bufferSize - 1; only the two publications act; reads return the oldest bytes, cut short only by the size they saw; push is cut short only by the free size it saw |
| Spsc.NeitherThreadBlocks | loginServer/lib/IOCP netServer/ringBuffer.cpp:89-188 | In every reachable state each thread has a step of its own |
| Spsc.StepKeepsInv | loginServer/lib/IOCP netServer/ringBuffer.cpp:89-188 | The protocol invariant is kept by each of the eight kinds of step |
| Codec.ByteOf | loginServer/lib/IOCP netServer/serializer.cpp:172-180 | Integers are laid out little-endian |
| Codec.IntRoundTrip | loginServer/lib/IOCP netServer/serializer.cpp:153-227 | Every integer in range of its type comes back from its bytes, signed or not, at every width |
| CodecTable.NumbersWritten | loginServer/lib/IOCP netServer/serializer.cpp:123-248 | For each kind of number how many bytes are written and which, the lowest first |
| CodecTable.OthersWritten | loginServer/lib/IOCP netServer/serializer.cpp:110-120 | A bool is the byte 1 or 0; a string its length in four bytes and then its characters (`serializer.cpp:249-264`) |
| CodecTable.NumbersRead | loginServer/lib/IOCP netServer/serializer.cpp:281-376 | For each kind of number how many bytes are read, and that the value is the one in the range of the kind that agrees with them; nothing when fewer are there |
| CodecTable.OthersRead | loginServer/lib/IOCP netServer/serializer.cpp:267-291 | A bool is any byte but 0; a string has the length its first four bytes say as an int, and is there exactly when that is not negative and so many bytes follow |
| CodecTable.Ranges | loginServer/lib/IOCP netServer/serializer.cpp:123-227 | The range of each integer kind |
| Codec.DecodeEncode | loginServer/lib/IOCP netServer/serializer.cpp:110-379 | Reading what was written gives the value and takes exactly its bytes, whatever follows |
| Codec.EncodeDecode | loginServer/lib/IOCP netServer/serializer.cpp:267-379 | Writing what was read gives the bytes back exactly unless they are a bool byte above 1 |
| Codec.DecodeAllEncodeAll | loginServer/lib/IOCP netServer/serializer.cpp:110-379 | The same for every list of mixed values |
| SerializerModel.TailAfterResize | loginServer/lib/IOCP netServer/serializer.cpp:18-21 | As written the tail keeps an address that is never in the new block; with the length saved it keeps the unread length |
| SerializerModel.TailLostExample | loginServer/lib/IOCP netServer/serializer.cpp:18-21 | A concrete growth that loses the tail |
| SerializerModel.GrownIsLeastDoubling | loginServer/lib/IOCP netServer/serializer.cpp:52-61 | The growth loop ends at the smallest sufficient doubling, below twice the tail offset plus the request; it grows exactly when the bytes already read and unread leave too little room |
| SerializerModel.CopyingIsPaid | loginServer/lib/IOCP netServer/serializer.cpp:9-31 | One growth copies at most what the capacity gains |
| SerializerModel.CopiedIsDoublings | loginServer/lib/IOCP netServer/serializer.cpp:9-31 | Each doubling of a growth moves all the unread bytes |
| SerializerModel.AddedShows | loginServer/lib/IOCP netServer/serializer.cpp:52-106 | What an operation counts as put in is what the unread bytes grow by |
| SerializerModel.TotalsOfParts | loginServer/lib/IOCP netServer/serializer.cpp:9-106 | The bytes put in and the bytes moved by a run are the sums over its parts |
| SerializerModel.TotalsOfOne | loginServer/lib/IOCP netServer/serializer.cpp:9-106 | Of a single operation they are what it puts in and what its growth moves |
| SerializerModel.PushedTail | loginServer/lib/IOCP netServer/serializer.cpp:52-61 | Where the tail is after a push of any length, also one narrowed to a negative int, and what lies in front of it |
| SerializerModel.GrowthIsAmortised | loginServer/lib/IOCP netServer/serializer.cpp:9-106 | Over every run of typed writes and reads, pushes and pops of any length, signed moves and clears, all copying is at most the growth of the capacity, and a capacity that grew is below twice the bytes ever put in |
| SerializerModel.PushAppendsExactlyWhen | loginServer/lib/IOCP netServer/serializer.cpp:52-61 | push appends its bytes if and only if their number fits an int and, as written, the room behind the tail suffices |
| SerializerModel.AsWrittenExactlyWhen | loginServer/lib/IOCP netServer/serializer.cpp:9-31 | As written a run, pushes and pops of any length included, keeps its pointers if and only if it never grows, and then does what it should |
| SerializerModel.RewindRestores | loginServer/lib/IOCP netServer/serializer.cpp:63-95 | Any run of reads, pops and head moves in either direction is undone by one head move of the displacement |
| SerializerModel.WritesAppendEncodings | loginServer/lib/IOCP netServer/serializer.cpp:110-265 | A run of typed writes appends the concatenated encodings to the unread bytes, across growths; as written exactly when they fit |
| SerializerModel.RoundTrip | loginServer/lib/IOCP netServer/serializer.cpp:110-379 | Any list of values written after any unread bytes and before any further ones is read back, leaving exactly what follows, whatever growths happen; as written exactly when the encodings fit |
| Serializers.Serializer.Resize | loginServer/lib/IOCP netServer/serializer.cpp:9-31 | Unread bytes at the front of a new block; pointers by the rule; as many bytes moved as were unread |
| Serializers.Serializer.MakeRoom | loginServer/lib/IOCP netServer/serializer.cpp:54-55 | The loop terminates and reaches the growth of the model, or loses the tail exactly when as written and too little room; it moves the bytes the model counts |
| Serializers.Serializer.Push | loginServer/lib/IOCP netServer/serializer.cpp:52-61 | The view afterwards is the model's push: bytes behind the unread ones, tail moved by the narrowed length, or the tail lost |
| Serializers.Serializer.Pop | loginServer/lib/IOCP netServer/serializer.cpp:63-72 | Returns the first min(n, size) unread bytes and moves the head over them |
| Serializers.Serializer.Peek | loginServer/lib/IOCP netServer/serializer.cpp:74-82 | Returns the same bytes without moving |
| Serializers.Serializer.MoveFront | loginServer/lib/IOCP netServer/serializer.cpp:85-95 | Keeps the cursors in order for every int, and returns the displacement after clamping |
| Serializers.Serializer.MoveRear | loginServer/lib/IOCP netServer/serializer.cpp:96-106 | The same for the tail; the bytes moved over are what memory holds |
| Serializers.Serializer.Perform | loginServer/lib/IOCP netServer/serializer.cpp:33-106 | Every operation of a run, clear included, does what the model's step does, and moves the bytes the model counts |
| Serializers.Serializer.Write | loginServer/lib/IOCP netServer/serializer.cpp:110-264 | Appends the encoding of the value, or loses the tail exactly when as written and growing |
| Serializers.Serializer.Read | loginServer/lib/IOCP netServer/serializer.cpp:267-379 | Yields the value at the head and moves over exactly its bytes; a value not written whole leaves the head at the tail or behind its length |
| Serializers.Serializer.Assign | loginServer/lib/IOCP netServer/serializer.cpp:388-401 | Capacity, both cursors and every byte of the block are the source's, by either rule of resize |
| Serializers.Serializer.SetHeader | loginServer/lib/IOCP netServer/packet.h:93-96 | The bytes up to the tail become the frame of the payload, or the start of a header when the tail lies in the header room, and the head moves back over the header (`serializer.h:64-76`) |
| Serializers.Serializer.Encryption | loginServer/lib/IOCP netServer/packet.h:98-101 | In place, the enciphered block of the model (`serializer.h:78-92`) |
| Serializers.Serializer.Decryption | loginServer/lib/IOCP netServer/packet.h:103-106 | In place, the deciphered block with the payload subtracted from the check sum, and the verdict (`serializer.h:94-118`) |
| Bits.XorBit | loginServer/lib/IOCP netServer/packet.h:98-106 | Bit k of an exclusive or is the sum of the bits k without carry (`serializer.h:87-110`) |
| WireFormat.HeaderBytes | loginServer/lib/IOCP netServer/define.h:3-15 | The five bytes of a packed header |
| WireFormat.SizeFieldIs | loginServer/lib/IOCP netServer/define.h:10-14 | The size field is the number from -32768 to 32767 that agrees with bytes 1 and 2 |
| WireFormat.CheckSumIsSum | loginServer/lib/IOCP netServer/packet.h:93-96 | The check sum is the sum of the payload modulo 256 (`serializer.h:67-70`) |
| WireFormat.HeadedBytes | loginServer/lib/IOCP netServer/packet.h:93-96 | What setting the header makes of the bytes up to the tail, wherever the tail is (`serializer.h:64-76`) |
| WireFormat.EncryptedBytes | loginServer/lib/IOCP netServer/packet.h:98-101 | Encryption makes each byte from the check sum to the end the size field tells the plain byte under two masks, and touches no other (`serializer.h:78-92`) |
| WireFormat.DecipheredBytes | loginServer/lib/IOCP netServer/packet.h:103-106 | Decryption byte by byte, over the same reach (`serializer.h:94-110`) |
| WireFormat.Verdict | loginServer/lib/IOCP netServer/packet.h:103-106 | A block is good if and only if its deciphered check sum is the sum of its deciphered payload modulo 256 (`serializer.h:112-117`) |
| WireFormat.SpanIsTheFrame | loginServer/lib/IOCP netServer/define.h:10-14 | The cipher reaches just to the end of a frame if and only if its payload is below 32768 bytes (`serializer.h:80`) |
| WireFormat.SentBytes | loginServer/lib/IOCP netServer/packet.h:93-101 | Every byte of a sent frame, for every payload and pair of keys, in terms of exclusive or and the keys (`serializer.h:64-92`) |
| Wire.FrameFields | loginServer/lib/IOCP netServer/define.h:3-15 | Where the packed header holds size, key and check sum, and that the payload follows |
| Wire.ChangedByteShows | loginServer/lib/IOCP netServer/packet.h:93-96 | Changing one byte of a payload changes the check sum if and only if the byte differs (`serializer.h:67-70`) |
| Wire.DecEnc | loginServer/lib/IOCP netServer/packet.h:98-106 | Deciphering undoes enciphering for every text, pair of keys and chaining state (`serializer.h:87-110`) |
| Wire.EncDec | loginServer/lib/IOCP netServer/packet.h:98-106 | And the other way round |
| Wire.CipherIsInvolutive | loginServer/lib/IOCP netServer/packet.h:98-106 | Both hold of whole blocks, whose size and key fields the cipher leaves alone (`serializer.h:78-110`) |
| Wire.WireRoundTrip | loginServer/lib/IOCP netServer/packet.h:93-106 | Header, encryption and decryption in turn give back every payload and are accepted (`serializer.h:64-118`) |
| Wire.ChangedByteIsRefused | loginServer/lib/IOCP netServer/packet.h:103-106 | A block that deciphers to a frame with one byte of the plain payload changed is refused (`serializer.h:112-117`) |
| WireChanges.DecAt | loginServer/lib/IOCP netServer/packet.h:103-106 | The chained decryption in closed form: each plain byte depends on its own byte of the wire and the two before it (`serializer.h:103-110`) |
| WireChanges.ChangedOnTheWire | loginServer/lib/IOCP netServer/packet.h:103-106 | A byte changed on the wire changes its own plain byte if and only if it differs, at most the two behind it, and nothing else (`serializer.h:94-110`) |
| WireChanges.ChangeIsSeenExactlyWhen | loginServer/lib/IOCP netServer/packet.h:103-106 | A good block with one byte changed on the wire stays good if and only if the check sum byte less the reached payload bytes, computed from the wire bytes and the two keys, is the same (`serializer.h:94-118`) |
| WireChanges.LastByteIsSeen | loginServer/lib/IOCP netServer/packet.h:103-106 | A change of the last byte in front of the tail is always refused (`serializer.h:94-118`) |
| WireChanges.FlipIsSeenExactlyWhen | loginServer/lib/IOCP netServer/packet.h:103-106 | A flipped top bit always changes the plain text, and is refused if and only if it is in the last two bytes of the frame (`serializer.h:94-118`) |
| Wire.SentSizeField | loginServer/lib/IOCP netServer/define.h:4-14 | The size field of a sent frame is the payload size if and only if that is below 32768 |
| Wire.PayloadPlacement | loginServer/lib/IOCP netServer/packet.h:37-43 | On a fresh packet the bytes from getPayload to the tail are the encodings written and the header room is untouched, if and only if the encodings fit without growth |
| PacketModel.CountAfterStep | loginServer/lib/IOCP netServer/packet.h:37-91 | By how much each lifetime operation changes each counter |
| PacketModel.PoolAfterStep | loginServer/lib/IOCP netServer/packet.h:47-59 | What each operation takes out of the pool; and a serializer goes back exactly when an operation takes references off its counter and leaves it at 0 |
| PacketModel.HeldAfterStep | loginServer/lib/IOCP netServer/packet.h:37-91 | Where each packet points after each operation; a decrement to 0 makes the packet forget its serializer |
| PacketModel.BalanceKept | loginServer/lib/IOCP netServer/packet.h:37-91 | No lifetime step, permitted or not, changes counter minus packets minus bare references of any serializer |
| PacketModel.StepConserves | loginServer/lib/IOCP netServer/packet.h:37-91 | Every permitted step keeps each counter equal to packets plus bare references, and no packet on a pooled serializer |
| PacketModel.ForbiddenStepBreaks | loginServer/lib/IOCP netServer/packet.h:65-68 | A step that breaks the ownership rule leaves a state no ledger can balance |
| PacketModel.RunConserves | loginServer/lib/IOCP netServer/packet.h:273-291 | Conservation over every run that obeys the rule |
| PacketModel.ReturnedExactlyOnce | loginServer/lib/IOCP netServer/packet.h:47-59 | Each time a serializer is given out it comes back once, and it is out exactly while a packet or bare reference remains |
| Packets.Packet.New | loginServer/lib/IOCP netServer/packet.h:37-43 | The packet points at a serializer that was not out before, whose counter is one higher and which left the pool |
| Packets.Packet.ReserveHeader | loginServer/lib/IOCP netServer/packet.h:39-42 | Empties the serializer, puts both cursors behind the header room, takes one reference |
| Packets.Packet.Copy | loginServer/lib/IOCP netServer/packet.h:60-63 | One more packet on the same serializer, and one more on its counter |
| Packets.Packet.Adopt | loginServer/lib/IOCP netServer/packet.h:65-68 | The packet takes over the reference of the bare pointer; the counter stays |
| Packets.Packet.IncReferenceCounter | loginServer/lib/IOCP netServer/packet.h:70-76 | n more bare references and n more on the counter; returns the new count, or 0 and no change without a buffer |
| Packets.Packet.DecReferenceCounter | loginServer/lib/IOCP netServer/packet.h:78-91 | n fewer on the counter; at 0 the serializer is back in the pool and the packet forgets it, otherwise n bare references are gone |
| Packets.Packet.AssignPacket | loginServer/lib/IOCP netServer/packet.h:273-282 | The old buffer loses one, and goes back to the pool at 0; the new one gains one first, so self-assignment changes nothing |
| Packets.Packet.AssignRaw | loginServer/lib/IOCP netServer/packet.h:284-291 | The old buffer loses one, and goes back at 0; the new one is taken over with the pointer's own reference, also when it is the same buffer |
| Packets.Packet.Destroy | loginServer/lib/IOCP netServer/packet.h:47-59 | The buffer loses one, and goes back at 0; a counter below 0 is reported; the packet is gone |
| Packets.SerializerPool.AllocRaw | loginServer/lib/IOCP netServer/packet.h:27-29 | The worker's own serializer: given out, emptied, one bare reference (`network.cpp:378-382`, `packet.cpp:26-32`) |
| Packets.SerializerPool.Release | loginServer/lib/IOCP netServer/packet.h:50-57 | The same decrement through a bare pointer: back to the pool at 0 (`session.cpp:200-202`) |
| Packets.SerializerPool.Retain | loginServer/lib/IOCP netServer/packet.h:70-76 | One more bare reference (`network.cpp:579`) |
| Sessions.DrainComposes | loginServer/lib/IOCP netServer/define.h:3-15 | Taking frames out early and again after more bytes finds the frames of the whole (`network.cpp:377-397`) |
| Sessions.DrainIsComplete | loginServer/lib/IOCP netServer/define.h:3-15 | The frames taken out and what is left are the bytes there were; each frame is as long as the size field at its start says; and no further whole frame with bytes is left (`session.cpp:337-359`, `network.cpp:377-397`) |
| Sessions.RunIsDrainOfTaken | loginServer/lib/IOCP netServer/ringBuffer.cpp:57-71 | Every run over a bounded ring, whatever the stream and the cuts: what came out and what waits are those of the bytes taken in; all transfers were taken in unless the first other one was refused, or the worker spins; and it spins if and only if what is left leads to it (`session.cpp:320-359`, `network.cpp:372-397`) |
| Sessions.SpinsExactlyWhen | loginServer/lib/IOCP netServer/define.h:3-15 | The next extraction would succeed without taking a byte if and only if a whole header is there with a size field of -5 (`session.cpp:339-350`) |
| Sessions.SpinningHeader | loginServer/lib/IOCP netServer/define.h:3-15 | Five bytes that bring the worker loop to spin on an empty ring (`session.cpp:346`, `network.cpp:377-397`) |
| Sessions.EveryCutSpinsExactlyWhen | loginServer/lib/IOCP netServer/ringBuffer.cpp:57-71 | A run that is not refused ends up spinning, whatever the cut, if and only if the frames of the whole stream lead to a size field of -5 (`session.cpp:320-359`, `network.cpp:372-397`) |
| Sessions.ChunkingDoesNotMatter | loginServer/lib/IOCP netServer/define.h:3-15 | Two cuts of one stream that are both taken in wholly end in the same receiver (`session.cpp:320-359`) |
| Sessions.NoCutRefusedExactlyWhen | loginServer/lib/IOCP netServer/ringBuffer.cpp:57-71 | No cut of a stream into transfers within the offered space is refused if and only if the ring keeps a free byte even when nothing is taken out (`session.cpp:243-328`) |
| Sessions.NoLongFrame | loginServer/lib/IOCP netServer/ringBuffer.cpp:57-71 | In no run of any stream from any receiver does a frame as long as the capacity come out (`session.cpp:320-359`) |
| Sessions.ReceivedIsSent | loginServer/lib/IOCP netServer/packet.h:93-106 | End to end, for any cut of whole frames and a partial one: what came out are the first frames sent, in order, each deciphers to its payload, the worker never spins; and unless a transfer was refused all have come out and the partial one waits in the ring (`session.cpp:320-359`) |
| Sessions.EveryCutDeliversExactlyWhen | loginServer/lib/IOCP netServer/ringBuffer.cpp:57-71 | Every cut gets a list of messages through if and only if their frames together are shorter than the capacity (`session.cpp:320-359`) |
| Sessions.SomeCutDeliversExactlyWhen | loginServer/lib/IOCP netServer/ringBuffer.cpp:57-71 | Some cut does if and only if each frame by itself is (`session.cpp:320-359`) |
| Sessions.CutMatters | loginServer/lib/IOCP netServer/ringBuffer.cpp:57-71 | Two frames of 130 and 125 bytes arrive in two transfers and stop the connection in one (`session.cpp:320-328`, `network.cpp:374-375`) |
| Sessions.Session.Received | loginServer/lib/IOCP netServer/ringBuffer.cpp:57-71 | Filling the two offered pieces and moving the rear appends the transfer, and is refused exactly when it is empty or would fill the ring (`session.cpp:243-328`) |
| Sessions.Session.RecvedPacket | loginServer/lib/IOCP netServer/ringBuffer.cpp:123-188 | Moves the first complete frame, and nothing else, from the ring into the serializer, and fails exactly when there is none, size fields from -5 to -1 included; the caller sees the frame, filled up to five bytes with what the block held (`session.cpp:337-359`) |
| Sessions.Session.TakeFrame | loginServer/lib/IOCP netServer/ringBuffer.cpp:123-188 | One round of the worker loop: the first frame with a serializer of the pool, which goes back, so that no serializer more or fewer is out (`network.cpp:378-396`) |
| Sessions.Session.TakeFrames | loginServer/lib/IOCP netServer/ringBuffer.cpp:123-188 | The worker loop takes out exactly the frames of the ring's contents, in order, and would go on for ever exactly when they lead to a size field of -5 (`network.cpp:377-397`) |
| Sessions.Session.Deliver | loginServer/lib/IOCP netServer/ringBuffer.cpp:123-188 | One completed receive is the receiver's step: refused, or the frames found and what is left (`network.cpp:372-399`) |
| Sessions.Session.Serve | loginServer/lib/IOCP netServer/ringBuffer.cpp:123-188 | Any number of completed receives into the offered space are the receiver's run, and no serializer is lost (`network.cpp:372-399`) |
| SendProtocol.OneSender | loginServer/lib/IOCP netServer/ringBuffer.cpp:89-148 | In every interleaving of any number of workers at most one works on a send or its completion, none while one is in flight, and the flag is up exactly then (`session.cpp:90-147`, `network.cpp:355-370`) |
| SendProtocol.SentInOrder | loginServer/lib/IOCP netServer/ringBuffer.cpp:89-148 | In every interleaving the packets released are the first of those handed to the system, and these the first of those collected, in order, each once; while a send is in flight `sendedBuffer` holds exactly what is posted and not released, never more than 100, and while the flag is down none is missing (`session.cpp:90-206`, `network.cpp:343-369`) |
| SendProtocol.OrderNeedsOneSender | loginServer/lib/IOCP netServer/ringBuffer.cpp:89-122 | Two workers gathering at once can post the second packet before the first (`session.cpp:110-129`) |
| SendProtocol.OverrunsExactlyWhen | loginServer/lib/IOCP netServer/ringBuffer.cpp:89-122 | Whatever the others do, a worker that found at most 100 packets comes to its send with exactly these and never overruns its array, and one that found more overruns it and never comes there (`session.cpp:98-129`) |
| SendProtocol.NoOverrun | loginServer/lib/IOCP netServer/ringBuffer.cpp:89-122 | A run in which every worker finds at most 100 packets never overruns the array (`session.cpp:98-124`) |
| SendProtocol.OverrunExample | loginServer/lib/IOCP netServer/ringBuffer.cpp:89-122 | 101 packets that pile up behind one send in flight reach an overrun (`session.cpp:108-121`, `network.cpp:364-369`) |
| SendProtocol.StrandedExactlyWhen | loginServer/lib/IOCP netServer/packet.h:70-91 | A step leaves a packet with nobody to send it if and only if a worker lowers the flag over a `sendBuffer` filled since it looked, all others being gone (`session.cpp:95-103`, `network.cpp:343-369`) |
| SendProtocol.RunStrandsExactlyWhen | loginServer/lib/IOCP netServer/packet.h:70-91 | From the start a run ends with a packet left behind if and only if its last step is such a one (`session.cpp:95-103`) |
| SendProtocol.StrandedExample | loginServer/lib/IOCP netServer/packet.h:70-91 | Two workers leave any number of packets behind, up to a full `sendBuffer` (`session.cpp:95-103`) |
| SendProtocol.NothingLeftBehind | loginServer/lib/IOCP netServer/packet.h:70-91 | A run in which a worker giving up always finds `sendBuffer` empty strands nothing (`session.cpp:95-103`) |
| SendProtocol.StrandedUntilNextPacket | loginServer/lib/IOCP netServer/packet.h:70-91 | From a stranded state the next worker to collect a packet wins the flag and sees everything, if there is room for the packet; if there is none, no step is possible (`session.cpp:90-125`, `LockFreeQueue.h:27-32`) |
| Senders.SettlesExactlyWhen | loginServer/lib/IOCP netServer/packet.h:78-91 | `sended` releases n packets and ends if and only if n is the least number that uses up the reported size modulo 2^32 (`session.cpp:183-209`) |
| Senders.SettlesExactlyOnTotals | loginServer/lib/IOCP netServer/packet.h:78-91 | Below 4 GiB it ends if and only if the reported size is the total of the first few packets (`session.cpp:183-209`) |
| Senders.WholeSendSettlesExactlyWhen | loginServer/lib/IOCP netServer/packet.h:78-91 | The total of all releases all if and only if the last packet is not empty (`session.cpp:193-203`) |
| Senders.ShortSendGoesAstray | loginServer/lib/IOCP netServer/packet.h:78-91 | Six bytes reported of packets of five and seven pass below 0 (`session.cpp:193-197`) |
| PacketModel.ReleaseAllConserves | loginServer/lib/IOCP netServer/packet.h:47-59 | Releasing a list of packets keeps the books in order when each has a bare reference for every time it occurs, and takes just those (`session.cpp:193-203`) |
| Senders.Sender.SendIO | loginServer/lib/IOCP netServer/ringBuffer.cpp:89-122 | Unless a send is under way everything waiting is posted in order and moved to `sendedBuffer`, and the flag stays up exactly when something was posted; it overruns its array exactly when more than 100 wait, with 100 moved and one in hand (`session.cpp:90-129`) |
| Senders.Sender.Sended | loginServer/lib/IOCP netServer/ringBuffer.cpp:123-159 | Releases exactly the packets the model says, in order, through the pool, or reports that it went astray exactly when no number of packets uses up the size (`session.cpp:183-209`) |

## Left out

- RingBuffers.RingBuffer.constructor: requested sizes of 0 and above 2^30 are excluded; 0 gives a mask of 2^32 - 1 over an empty array, and larger sizes do not fit the `int` they are converted to.
- RingBuffers.RingBuffer.Assign: assignment of a ring to itself is excluded; the source frees the array it then copies from.
- Serializers.Serializer.constructor: a buffer of size 0 is excluded; doubling it never ends.
- Serializers.Serializer.Write: strings of 2^31 bytes or more are excluded, because the length field is an `int`.
- Serializers.Serializer.Assign: assignment to itself is excluded, for the same reason as for rings.
- Serializers.Serializer.SetHeader: the block must hold a header; the overload that takes size and check sum is not modelled.
- Packets.Packet.Copy: a packet without a buffer as the other side is excluded here and in `AssignPacket`; the source dereferences it.
- Sessions.Session.RecvedPacket: the serializer must hold at least 256 bytes, which every pooled one does.
- Sessions.Session.TakeFrames: the handler `OnRecv` keeps no reference to the packet, and where the source loops for ever the method ends and says so.
- Serializers.Serializer.Encryption: a size field that reaches past the block is excluded; the source would change memory behind it.
- Serializers.Serializer.Decryption: the same, and a tail inside the header room, where the source subtracts nothing from the check sum.
- Senders.Sender.SendIO: `sendedBuffer` is a sequence of packets, not a ring of eight-byte pointers (its 2047 bytes hold more than the 100 that `SentInOrder` allows); a failing `WSASend` and the cancel flag are not modelled, nor anything after an overrun.
- Senders.Sender.Sended: the model stops where the source would pop from an empty `sendedBuffer` and go on with the pointer it holds.
- SendProtocol.SentInOrder: a packet just counted can be popped at once, and a packet that `collectSendPacket` turns away is not part of the state.
- Failed allocation, `size_t` overflow of the doubled size, and wrap-around of the 32-bit reference counter.
- Weak memory models, and the interlocked instructions that the counters use: their steps are atomic in the model.
- The serializer's copy constructor, which copies the unread bytes only, and the ring's `clear`, `empty` and `full`.
- `getString`, `setString`, `getWstring`, `setWstring`, which copy with `memcpy_s` and never grow, and `printbuffer`.
- The multi-producer list queue of `LockFreeQueue.h`, session I/O counting, and everything else in `network.cpp` around sockets and threads.
- The MySQL and Redis connectors, cpp_redis and tacopie: for the most part declarations without bodies.
