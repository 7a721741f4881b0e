# SudaGureum, modelled and proved in Dafny

SudaGureum is an IRC bouncer: it keeps connections to IRC servers and serves clients over WebSocket.
This project models the parts of it whose correctness is hardest to see and proves what they are for.

- **Hashing** (`Bytes`, `Fips180`, `Fips180Constants`, `Sha256Transform`, `Sha256Stream`, `Rfc2104`,
  `HmacStream`, `Rfc8018`, `Pbkdf2Code`). The SHA-256, HMAC and PBKDF2 code works in place on arrays and
  contexts. It is proved, layer by layer, against FIPS 180-4, RFC 2104 section 2 and RFC 8018 section
  5.2, each written down as functions: the compression that turns indices instead of moving registers,
  the streaming hash for every division of a message into pieces, and the key derivation that copies
  half-finished contexts.
- **Write queues** (`FifoChannel`, `Sums`, `IrcWriteQueue`, `SocketWriteQueue`). Both asynchronous write
  queues are state machines with one step for each access to shared state, run by any number of threads
  under any schedule. An ownership token explains the atomic flag `inWrite_`, which is cleared outside
  the lock. The proofs give one outstanding write, first-in-first-out order as refinement of one
  abstract channel, no lost wakeup, no deadlock and finite runs.
- **IRC lines** (`IrcMessages`, `IrcGrammar`, `IrcStream`, `IrcConnection`). The word automaton is
  proved to accept exactly a grammar of lines (RFC 2812 section 2.3.1), the printer to be its inverse on
  exactly the well-formed messages, and the byte automaton not to depend on how the stream was cut.
  `IrcConnection` joins the write queue of one side with the parser of the other.
- **IRC client state** (`CaseInsensitive`, `IrcSupport`, `IrcModes`, `IrcClients`). The ISUPPORT tables,
  the MODE interpreter and the choice of a nickname during registration, for any run of messages.
- **WebSocket** (`WebSocketFrames`, `WebSocketServer`, `WebSocketStream`, `WebSocketRefinement`,
  `WebSocketDelivery`, `WebSocketSending`). The incremental parser refines the division of the whole
  stream into frames (RFC 6455 sections 5.2 to 5.4). From that follow its bounds, its independence of
  pieces, both round trips and the assembly of fragmented messages.

Code that changes things step by step is a class with those fields or a method on arrays, and each
method is proved equal to a function of the old state; the properties are lemmas about that function.
A `char` or `std::string` of the IRC code is a Dafny `char` or `string`, octets are `bv8`, words `bv32`.

## Where the code and its own comments or assertions differ

- `SudaGureum/WebSocketParser.cpp:179` copies the masking key of a frame with a seven-bit length when the
  frame is *not* masked, although the branch asserts at line 151 that it is. Both rules are modelled
  (`KeyRule`). `ClientRoundTrip` holds for the intended one. For the written one,
  `ShortMaskedFrameGarbled` gives an input that fails and `WrittenUnmasks` the exact condition under
  which frames come out unmasked.
- `SudaGureum/WebSocketServer.cpp:28` and `:36` make a pointer of the length's value, which has no defined
  behaviour for 126 octets or more. `WebSocketServer.EncodeFrame` takes the octets of the length, as the
  comments describe.
- `SudaGureum/IrcParser.cpp:100-103` returns false for an overlong line without entering the state Error, so
  a later call goes on with the line. `FailureKinds` says when a call fails, from every state a parser can be in, and
  `OverlongCall` what every further call makes of the line.
- The printer does not look for line ends inside a message (`SudaGureum/IrcClient.cpp:28-54`), so one that has
  them is read as something else. `StreamRoundTrip` and `SentIsRead` hold for all messages, with the exact
  condition under which they come back.
- The return values of `parseFrame` and `parseEmptyFrame` are ignored, so `WebSocketParser::parse` never
  fails (`StepNoError`), and the remains of a message that does not parse stay in `totalPayload_`, in front
  of the next one (`RejectedTextStays`). `MessagesAssembled` says when messages are handed over as sent.
- In `BufferedWriterSocket` an empty frame is neither written nor popped (`SudaGureum/Socket.h:156-169`).
  The queue lemmas are proved for all frames: `NothingLeftBehind` states that exactly the frames before
  the first empty one are written, and that the queue ends empty if and only if none was empty.
- `BufferedWriterSocket` clears its flag before it calls a completion handler (`SudaGureum/Socket.h:188-190`).
  `HandlersInOrder` states exactly when handlers are called in the order of their frames.
- The MODE interpreter does not follow the ISUPPORT tables in three ways: `O l k b e I` take no parameter
  whatever was announced (`SudaGureum/IrcClient.cpp:456-498`), `q a o h v` take one whatever was announced
  (`:459-466`), and a letter of the third CHANMODES list takes one with `-` as well, because the test at
  `:507` is that there is a sign, not which one. `ParamsAsAnnounced` states exactly for which modifiers the
  parameters are paired as announced, and `ExampleMisread` gives tables and one failing modifier for each.
- `SudaGureum/IrcClient.cpp:574-578` keeps the name of the parameter before for one without an equals sign.
  `PlainToken` states exactly when that changes a table, and `PlainTokenClears` gives a case.
- `PBKDF2_SHA256` with `c == 0` behaves as with `c == 1`. With `c == UINT64_MAX` and something to derive, its
  inner loop has no end (`LoopEnds`); that one case is excluded.

## Model

| member | source | states |
|---|---|---|
| Bytes.Be32Inverse | External/WrapperProject/scryptcrypto/sha256.c:20-48 | encoding and decoding a big-endian word undo each other, both ways |
| Bytes.AddDropsCarry | External/WrapperProject/scryptcrypto/sha256.c:80-84 | the sum of words is the sum in twice the width without its carry |
| Bytes.Be32Order | External/WrapperProject/scryptcrypto/sha256.c:33-48 | of four octets the first counts for most |
| Bytes.BigEndianRoundTrip | External/WrapperProject/scryptcrypto/sha256.c:188-189 | the octets of a number that fits denote that number (be64enc and the WebSocket lengths) |
| Bytes.BigEndianOfValue | SudaGureum/WebSocketParser.cpp:163-171 | any octet string is the big-endian form of the number read from it |
| Bytes.FirstOctetCounts | SudaGureum/WebSocketParser.cpp:163-171 | of any number of octets the first counts for most |
| Fips180.ZeroCountIsLeast | External/WrapperProject/scryptcrypto/sha256.c:166-189 | the zeros of the reference padding are the least solution of the congruence of FIPS 180-4 section 5.1.1 |
| Fips180.PadInjective | External/WrapperProject/scryptcrypto/sha256.c:166-193 | below 2^64 bits, distinct messages have distinct padded forms |
| Fips180.AbsorbAppend | External/WrapperProject/scryptcrypto/sha256.c:249-254 | the fold of the compression over blocks may be split between any two blocks |
| Fips180Constants.NthPrime | External/WrapperProject/scryptcrypto/sha256.c:50-68 | the table of primes holds the t-th prime at t, counted over all numbers |
| Fips180Constants.RoundConstant | External/WrapperProject/scryptcrypto/sha256.c:50-68 | each round constant is the first 32 bits of the fractional part of the cube root of the t-th prime |
| Fips180Constants.InitialValue | External/WrapperProject/scryptcrypto/sha256.c:195-199 | each word of the initial hash value is the first 32 bits of the fractional part of the square root of the t-th prime |
| Sha256Transform.ChRewritten | External/WrapperProject/scryptcrypto/sha256.c:71 | the macro Ch is the function of FIPS 180-4 section 4.1.2 on all words |
| Sha256Transform.MajRewritten | External/WrapperProject/scryptcrypto/sha256.c:72 | the macro Maj is the function of FIPS 180-4 section 4.1.2 on all words |
| Sha256Transform.RotationsBySafeShifts | External/WrapperProject/scryptcrypto/sha256.c:73-78 | the four sigma macros, built of shifts, are the rotations of the standard |
| Sha256Transform.RndIsRound | External/WrapperProject/scryptcrypto/sha256.c:80-84 | RND is one round of section 6.2.2 up to the renaming of registers |
| Sha256Transform.RoundInPlace | External/WrapperProject/scryptcrypto/sha256.c:86-92 | a round that changes two registers in place and turns the index is a round that moves all eight |
| Sha256Transform.SlotsTurn | External/WrapperProject/scryptcrypto/sha256.c:86-92 | each round reads the registers one place further, and after sixteen rounds they are back |
| Sha256Transform.Be32DecVect | External/WrapperProject/scryptcrypto/sha256.c:37-48 | every word is decoded from its four octets, the rest of the array stays |
| Sha256Transform.ExtendSchedule | External/WrapperProject/scryptcrypto/sha256.c:94-96 | MSCH adds the next word of the message schedule to a correct schedule |
| Sha256Transform.SixteenRounds | External/WrapperProject/scryptcrypto/sha256.c:116-132 | one group of rounds advances the shifting-register computation by sixteen and keeps the schedule |
| Sha256Transform.SixteenWords | External/WrapperProject/scryptcrypto/sha256.c:136-151 | sixteen more schedule words, registers unchanged |
| Sha256Transform.LoadRegisters | External/WrapperProject/scryptcrypto/sha256.c:112-113 | the working variables start as the state, the schedule unchanged |
| Sha256Transform.AddRegisters | External/WrapperProject/scryptcrypto/sha256.c:154-156 | every state word becomes its sum modulo 2^32 with its register |
| Sha256Transform.Transform | External/WrapperProject/scryptcrypto/sha256.c:102-157 | for every state and block, the new state is the compression of FIPS 180-4 section 6.2.2 |
| Sha256Stream.CounterFill | External/WrapperProject/scryptcrypto/sha256.c:172-173 | the 64-bit counter gives the fill of the buffer for every length, even after it has wrapped |
| Sha256Stream.CompletesBlock | External/WrapperProject/scryptcrypto/sha256.c:243-247 | filling the buffer to 64 octets and compressing absorbs exactly one more block |
| Sha256Stream.OneBlockPadding | External/WrapperProject/scryptcrypto/sha256.c:176-192 | the short branch of SHA256_Pad realises section 5.1.1 |
| Sha256Stream.TwoBlockPadding | External/WrapperProject/scryptcrypto/sha256.c:179-192 | the long branch, with its extra block, realises section 5.1.1 |
| Sha256Stream.Be32EncVect | External/WrapperProject/scryptcrypto/sha256.c:20-31 | the whole destination is the big-endian form of the words in order |
| Sha256Stream.TransformBlocks | External/WrapperProject/scryptcrypto/sha256.c:249-254 | the loop absorbs all complete blocks and leaves less than one |
| Sha256Stream.Sha256Ctx.Init | External/WrapperProject/scryptcrypto/sha256.c:205-214 | the context stands for the empty message |
| Sha256Stream.Sha256Ctx.Update | External/WrapperProject/scryptcrypto/sha256.c:220-258 | a context that stands for m stands for m followed by the input: state the fold over whole blocks, buffer the tail, counter the bit length modulo 2^64 |
| Sha256Stream.Sha256Ctx.Pad | External/WrapperProject/scryptcrypto/sha256.c:167-193 | the state becomes the fold over the padded message |
| Sha256Stream.Sha256Ctx.Final | External/WrapperProject/scryptcrypto/sha256.c:278-288 | the digest is SHA-256 of the message the context stands for |
| Sha256Stream.Sha256Ctx.CopyRepresents | External/WrapperProject/scryptcrypto/sha256.c:491 | a copied context carries on from the same message |
| Sha256Stream.Sha256Buf | External/WrapperProject/scryptcrypto/sha256.c:310-323 | the digest of a buffer is its SHA-256 |
| Sha256Stream.HashPieces | External/WrapperProject/scryptcrypto/sha256.c:206-288 | for every division into Update calls, Init, Updates and Final give SHA-256 of the concatenation |
| HmacStream.MaskKey | External/WrapperProject/scryptcrypto/sha256.c:349-351 | the pad becomes the zero-filled key exclusive-ored with the repeated octet |
| Rfc2104.KeyBlockForms | External/WrapperProject/scryptcrypto/sha256.c:338-345 | a key of at most 64 octets is used as it is, a longer one through its hash, both filled up with zeros |
| HmacStream.HmacCtx.Init | External/WrapperProject/scryptcrypto/sha256.c:330-360 | both contexts have absorbed their key block of RFC 2104, for keys of any length |
| HmacStream.HmacCtx.Update | External/WrapperProject/scryptcrypto/sha256.c:383-390 | the context stands for the text followed by the input, under the same key |
| HmacStream.HmacCtx.Final | External/WrapperProject/scryptcrypto/sha256.c:410-423 | the digest is the HMAC of RFC 2104 section 2 |
| HmacStream.HmacCtx.CopyRepresents | External/WrapperProject/scryptcrypto/sha256.c:491-509 | a copied context carries on from the same key and text |
| HmacStream.HmacBuf | External/WrapperProject/scryptcrypto/sha256.c:445-461 | the digest is the HMAC of the buffer under the key |
| Rfc8018.KeyPrefix | External/WrapperProject/scryptcrypto/sha256.c:495-523 | a shorter derived key is a prefix of a longer one |
| Pbkdf2Code.XorInto | External/WrapperProject/scryptcrypto/sha256.c:513-515 | T becomes its octet-wise exclusive or with U |
| Pbkdf2Code.CounterFits | External/WrapperProject/scryptcrypto/sha256.c:496-497 | under the bound on dkLen the cast of the block counter to 32 bits loses nothing |
| Pbkdf2Code.Prf | External/WrapperProject/scryptcrypto/sha256.c:499-502 | copying a prepared context, absorbing and finishing is HMAC of the prepared text and the input, and the prepared context stays usable |
| Pbkdf2Code.DeriveBlock | External/WrapperProject/scryptcrypto/sha256.c:496-516 | T becomes the exclusive or of the first c iterates of the block |
| Pbkdf2Code.LoopEnds | External/WrapperProject/scryptcrypto/sha256.c:507 | the guard of the inner loop holds for every value the 64-bit counter takes if and only if c is UINT64_MAX |
| Pbkdf2Code.WriteBlock | External/WrapperProject/scryptcrypto/sha256.c:518-522 | the output is the derived blocks so far, cut at dkLen, and untouched behind |
| Pbkdf2Code.Prepare | External/WrapperProject/scryptcrypto/sha256.c:486-492 | one context stands for the password alone, the other for password and salt |
| Pbkdf2Code.Pbkdf2Sha256 | External/WrapperProject/scryptcrypto/sha256.c:468-533 | exactly the first dkLen octets of the buffer become the key of RFC 8018 section 5.2, for every c for which the loop ends, and for every c when dkLen is zero |
| FifoChannel.NextKeepsValid | SudaGureum/IrcClient.cpp:220-271 | in the abstract channel what is delivered stays the beginning of what was accepted, and nothing is taken back |
| IrcWriteQueue.AcceptedAreSent | SudaGureum/IrcClient.cpp:220-369 | over any run exactly the messages sent are accepted, in order |
| IrcWriteQueue.FailedIsReported | SudaGureum/IrcClient.cpp:220-369 | over any run a failure is seen if and only if the socket reports an error |
| IrcWriteQueue.NothingRefused | SudaGureum/IrcClient.cpp:220-369 | any idle thread may send at any time and may be the one to run a completion, with or without an error |
| IrcWriteQueue.SendAndWrite | SudaGureum/IrcClient.cpp:220-271 | an uninterrupted sendMessage queues its text and, unless a write is under way, gives the head of the queue to the socket; nothing else changes |
| IrcWriteQueue.HandleAndWrite | SudaGureum/IrcClient.cpp:353-369 | an uninterrupted handleWrite clears the flag and, without an error, gives the next text to the socket; with an error nothing more happens |
| IrcWriteQueue.StepKeepsToken | SudaGureum/IrcClient.cpp:235-270 | every step keeps inWrite_ equal to the number of tokens |
| IrcWriteQueue.StepKeepsOrder | SudaGureum/IrcClient.cpp:226-265 | every step keeps the handed, held and queued texts together equal to the lines of the accepted messages |
| IrcWriteQueue.StepKeepsWake | SudaGureum/IrcClient.cpp:233-271 | every step keeps somebody awake for a queue that is not empty |
| IrcWriteQueue.OtherOwner | SudaGureum/IrcClient.cpp:237-240 | a thread that gives up because the flag is set leaves a completion handler that will look again |
| IrcWriteQueue.OneOwner | SudaGureum/IrcClient.cpp:235-270 | in every run at most one write is outstanding, no thread owns the flag beside it, no two threads own it, and inWrite_ is true exactly while somebody does |
| IrcWriteQueue.FirstInFirstOut | SudaGureum/IrcClient.cpp:226-265 | in every run, written, outstanding, held and queued texts are the lines of all messages sent, in order, nothing lost, doubled or overtaken |
| IrcWriteQueue.StepRefinesChannel | SudaGureum/IrcClient.cpp:220-271 | every step is a move of the abstract first-in-first-out channel |
| IrcWriteQueue.NoLostWakeup | SudaGureum/IrcClient.cpp:233-369 | in every run without socket errors a queue that is not empty has a write outstanding or a thread that will look again |
| IrcWriteQueue.NothingLeftBehind | SudaGureum/IrcClient.cpp:220-369 | at quiescence without socket errors the queue is empty and everything sent is written |
| IrcWriteQueue.StepDoesWork | SudaGureum/IrcClient.cpp:233-369 | every step but a send decreases a measure |
| IrcWriteQueue.RunsAreFinite | SudaGureum/IrcClient.cpp:233-369 | the number of steps between sends is bounded by the measure |
| IrcWriteQueue.SomeStepEnabled | SudaGureum/IrcClient.cpp:233-369 | no deadlock: unless all is quiet some thread can move |
| IrcWriteQueue.Drains | SudaGureum/IrcClient.cpp:233-369 | every reachable state can be run to quiescence without further errors, and then everything accepted is written unless a write had failed |
| SocketWriteQueue.AcceptedAreSent | SudaGureum/Socket.h:122-196 | over any run exactly the frames sent are accepted, in order |
| SocketWriteQueue.FailedIsReported | SudaGureum/Socket.h:122-196 | over any run a failure is seen if and only if the socket reports an error |
| SocketWriteQueue.NothingRefused | SudaGureum/Socket.h:122-196 | any idle thread may send at any time and may be the one to run a completion, with or without an error |
| SocketWriteQueue.SendAndWrite | SudaGureum/Socket.h:122-176 | an uninterrupted asyncWrite, also inside a handler, queues its frame and, unless a write is under way, gives a non-empty head to the socket; nothing else changes |
| SocketWriteQueue.HandleToEnd | SudaGureum/Socket.h:178-196 | an uninterrupted handleWrite pops the written frame, clears the flag and calls its handler; it goes on to write exactly if there was no error |
| SocketWriteQueue.StepKeepsToken | SudaGureum/Socket.h:139-196 | every step keeps inWrite_ equal to the number of tokens |
| SocketWriteQueue.StepKeepsOrder | SudaGureum/Socket.h:122-186 | every step keeps the queue equal to the accepted frames not yet popped, the first without its handler while the handler is moved out |
| SocketWriteQueue.StepKeepsHandlers | SudaGureum/Socket.h:178-191 | every step keeps the balance between handlers moved out, held and called |
| SocketWriteQueue.StepKeepsWake | SudaGureum/Socket.h:139-195 | every step keeps somebody awake for a queue whose head is not empty |
| SocketWriteQueue.OneOwner | SudaGureum/Socket.h:139-196 | in every run at most one write is outstanding, of the frame at the head of the queue; an owner of the flag is alone; inWrite_ is true exactly while there is one or a write is outstanding |
| SocketWriteQueue.FirstInFirstOut | SudaGureum/Socket.h:122-186 | in every run, popped frames and queue are all frames sent, in order, and the written ones their beginning |
| SocketWriteQueue.HandlerSeesItsFrame | SudaGureum/Socket.h:178-186 | the frame popped by the completion handler is the one just written, its own handler still in it |
| SocketWriteQueue.BufferStaysInPlace | SudaGureum/Socket.h:150-164 | while a write is outstanding the buffer it was given is at the head of the queue |
| SocketWriteQueue.HandlersOnce | SudaGureum/Socket.h:178-190 | every handler that has been called belongs to a frame that has been written, and no handler is called twice |
| SocketWriteQueue.HandlersInOrder | SudaGureum/Socket.h:188-190 | handlers are called in the order of their frames in every run if and only if at most one thread runs completions, however many threads send |
| SocketWriteQueue.HandlersInOrderAlone | SudaGureum/Socket.h:188-190 | if every thread may run completions, they are called in order in every run if and only if there is at most one thread |
| SocketWriteQueue.HandlersCanOvertake | SudaGureum/Socket.h:188-190 | for any two threads that run completions, among any number, a run in which the second frame's handler is called before the first one's |
| SocketWriteQueue.StepRefinesChannel | SudaGureum/Socket.h:122-196 | every step is a move of the same abstract channel |
| SocketWriteQueue.NoLostWakeup | SudaGureum/Socket.h:139-196 | in every run without socket errors a queue whose head is not an empty frame has a write outstanding or a thread that will look again |
| SocketWriteQueue.NothingLeftBehind | SudaGureum/Socket.h:122-196 | at quiescence without socket errors exactly the frames before the first empty one are written and their handlers called once; the queue is empty if and only if no empty frame was sent |
| SocketWriteQueue.RunsAreFinite | SudaGureum/Socket.h:139-196 | the number of steps between sends is bounded by a measure |
| SocketWriteQueue.SomeStepEnabled | SudaGureum/Socket.h:139-196 | no deadlock, and the completion handler never meets an empty deque |
| SocketWriteQueue.Drains | SudaGureum/Socket.h:139-196 | every reachable state can be run to quiescence |
| IrcMessages.EncodeMessage | SudaGureum/IrcClient.cpp:28-54 | the loop prints prefix, command, middle parameters and a last parameter behind a colon |
| IrcGrammar.SplitIsWords | SudaGureum/IrcParser.cpp:134-135 | splitting gives words without spaces that join to the line |
| IrcGrammar.SplitOfJoin | SudaGureum/IrcParser.cpp:134-135 | joined words are split into the same words |
| IrcGrammar.FeedTrailing | SudaGureum/IrcParser.cpp:185-187 | the last parameter takes up the rest of the line, spaces kept |
| IrcGrammar.CommandsAccepted | SudaGureum/IrcParser.cpp:191-195 | a single word is accepted if and only if it is letters alone or three digits |
| IrcGrammar.ParseMessage | SudaGureum/IrcParser.cpp:124-200 | the loop over the words accepts, rejects and builds messages as the automaton on the whole list of words |
| IrcGrammar.ParseExact | SudaGureum/IrcParser.cpp:124-200 | a line is accepted with a message if and only if the grammar derives the line for that message |
| IrcGrammar.PrintParse | SudaGureum/IrcClient.cpp:28-54 | a printed message parses to itself if and only if it is well formed |
| IrcGrammar.ParsePrintParse | SudaGureum/IrcParser.cpp:124-200 | the message of every accepted line is well formed, and prints to a line that parses to it again |
| IrcStream.IrcParser.Clear | SudaGureum/IrcParser.cpp:36-40 | the parser is as new |
| IrcStream.IrcParser.Append | SudaGureum/IrcParser.cpp:49-60 | the character is appended in any case, and the answer is whether at most 4096 are there |
| IrcStream.IrcParser.ParseChar | SudaGureum/IrcParser.cpp:65-118 | fields, return value and callbacks of one turn, in every state and for every character |
| IrcStream.IrcParser.Parse | SudaGureum/IrcParser.cpp:42-122 | fields, return value and callbacks of a call are those of the automaton on the text |
| IrcStream.FeedAppend | SudaGureum/IrcParser.cpp:42-122 | a call with a + b succeeds if and only if calls with a and then b do, with the same callbacks and fields |
| IrcStream.PiecesDoNotMatter | SudaGureum/IrcParser.cpp:42-122 | any division of a text into calls gives the result of one call |
| IrcStream.BareLfLikeFresh | SudaGureum/IrcParser.cpp:84-97 | the state after a bare LF and the state None behave alike on every input |
| IrcStream.FailureKinds | SudaGureum/IrcParser.cpp:42-122 | a call with any text, from any state that a parser can be in, fails if and only if it ends in the state Error or inside a line of more than 4096 characters, of exactly 4097 when the line has just become too long |
| IrcStream.OverlongCall | SudaGureum/IrcParser.cpp:84-105 | what a call makes of a line that was already too long: one more character and failure, or at a line end delivery or the state Error |
| IrcStream.OverlongLineResumes | SudaGureum/IrcParser.cpp:98-104 | after failing on a line of 4097 characters the parser still delivers it at the next CR LF |
| IrcStream.FeedLine | SudaGureum/IrcParser.cpp:62-119 | a printed line that fits gives its message and leaves a fresh parser |
| IrcStream.TextIsRead | SudaGureum/IrcParser.cpp:42-122 | lines of the grammar that fit, each ended by CR LF or a bare LF, and the beginning of another, are read: messages, state and buffer |
| IrcStream.ReadIsText | SudaGureum/IrcParser.cpp:42-122 | every text that is read without failure is of this kind, with these messages, state and buffer |
| IrcStream.AcceptedTexts | SudaGureum/IrcParser.cpp:42-122 | a text is read without failure if and only if it is of this kind, or lacks only the LF after its last CR |
| IrcStream.LineEndsCounted | SudaGureum/IrcParser.cpp:42-122 | in a text read without failure each message delivered has its LF, every CR belongs to one, and every message delivered is well formed |
| IrcStream.StreamRoundTrip | SudaGureum/IrcClient.cpp:28-227 | any list of messages, printed and cut in any way, comes back exactly and leaves a fresh parser if and only if all are well formed, have no line end inside and fit in 4096 characters; for printable ones reading fails otherwise |
| IrcConnection.SentIsRead | SudaGureum/IrcClient.cpp:220-369 | whatever threads send, once all is quiet without socket errors the other end reads exactly the messages sent, in order, if and only if they are well formed, without line ends inside, and fit |
| CaseInsensitive.FoldMeets | SudaGureum/Comparator.h:5-19 | two names meet if and only if they differ in the case of letters alone |
| IrcSupport.SortSorted | SudaGureum/IrcClient.cpp:583-594 | sorting gives a sorted rearrangement |
| IrcSupport.SearchIsMembership | SudaGureum/IrcClient.cpp:501-508 | binary search in a sorted string is membership |
| IrcSupport.InsertPairsOneToOne | SudaGureum/IrcClient.cpp:606-612 | the prefix table stays one-to-one whatever letters repeat |
| IrcSupport.FirstPairsStay | SudaGureum/IrcClient.cpp:606-612 | of pairs that share a symbol or a letter the first stays, and no other pair is left out |
| IrcSupport.DistinctPairsKept | SudaGureum/IrcClient.cpp:606-612 | without repetitions every pair of the value is in the table |
| IrcSupport.MatchPrefixExact | SudaGureum/IrcClient.cpp:600-602 | the expression matches exactly the values of its form, with only these groups |
| IrcSupport.OptionStored | SudaGureum/IrcClient.cpp:567-572 | a parameter with an equals sign is an option from then on, with its value unless the name had one |
| IrcSupport.OptionsStayOverRun | SudaGureum/IrcClient.cpp:562-617 | over any run of 005 messages no option is lost or changed |
| IrcSupport.PlainToken | SudaGureum/IrcClient.cpp:574-584 | a parameter without an equals sign leaves the tables alone if and only if the one before is not CHANTYPES or there are no channel types |
| IrcSupport.PlainTokenClears | SudaGureum/IrcClient.cpp:574-584 | two parameters after which the channel types just announced are gone |
| IrcSupport.FindEqual | SudaGureum/IrcClient.cpp:567-571 | the first equals sign, or none if there is none |
| IrcSupport.ChanModesStored | SudaGureum/IrcClient.cpp:585-597 | after CHANMODES with four lists, searching table i finds a letter if and only if list i names it, and nothing else has changed |
| IrcSupport.ChanTypesStored | SudaGureum/IrcClient.cpp:580-584 | after CHANTYPES the channel types are exactly the characters of the value, sorted, and nothing else has changed |
| IrcSupport.PrefixStored | SudaGureum/IrcClient.cpp:598-615 | after PREFIX with distinct letters and symbols the table holds exactly these pairs, and nothing else has changed |
| IrcSupport.DefaultPrefixes | SudaGureum/IrcClient.cpp:75-78 | the prefixes of a new client are those that PREFIX=(qaohv)~&@%+ sets |
| IrcSupport.TokenKeepsValid | SudaGureum/IrcClient.cpp:580-615 | one parameter keeps the strings sorted, four of them, and the table one-to-one |
| IrcSupport.RunKeepsValid | SudaGureum/IrcClient.cpp:500-614 | over any run of 005 messages binary search in the CHANMODES strings is membership and the table is one-to-one |
| IrcModes.RunModifier | SudaGureum/IrcClient.cpp:433-511 | the loop changes participants and takes parameters as the interpretation of the modifier says, also when parameters run out |
| IrcModes.TakesIsMembership | SudaGureum/IrcClient.cpp:454-510 | which letters take a parameter, in terms of the announced lists, the prefix letters and the stubs |
| IrcModes.TakesExactly | SudaGureum/IrcClient.cpp:433-511 | parameters run out if and only if there are fewer than the number of letters behind a sign that take one; otherwise exactly that many go, from the front |
| IrcModes.UnsignedIgnored | SudaGureum/IrcClient.cpp:451-452 | letters before the first sign do nothing |
| IrcModes.FlagsEndAsLastMentioned | SudaGureum/IrcClient.cpp:433-482 | each flag ends as the last sign before the last position that mentions it says, or unchanged if none does, where the letter at a position gets the parameter whose number is the number of taking letters before it; participants, names and away marks are unchanged |
| IrcModes.FlagLetter | SudaGureum/IrcClient.cpp:56-72 | for each of qaohv, which flag + sets and - clears, and that nothing else of the participant changes |
| IrcModes.ParamsAsAnnounced | SudaGureum/IrcClient.cpp:454-510 | with parameters announced by the ISUPPORT tables alone (prefix letters and lists 1 and 2 always, list 3 when set), every letter meets the one sent for it if and only if behind a sign there is no stub that comes with a parameter, none of qaohv that comes without, and no mode of list 3 alone that is cleared |
| IrcModes.ClearedModeTakesParam | SudaGureum/IrcClient.cpp:507-508 | a modifier that clears a mode of list 3 and whose next letter then finds no parameter |
| IrcModes.StubLeavesParam | SudaGureum/IrcClient.cpp:484-498 | a modifier with a stub that comes with a parameter, which is then taken for the nickname of the next letter |
| IrcModes.FlagTakesParam | SudaGureum/IrcClient.cpp:459-482 | a modifier with one of qaohv that comes without a parameter, and takes the one of the next letter |
| IrcModes.ExampleAnnounced | SudaGureum/IrcClient.cpp:562-617 | the tables of a new client after one 005 message with given PREFIX and CHANMODES announce each letter where its token puts it |
| IrcModes.ExampleMisread | SudaGureum/IrcClient.cpp:433-511 | with these tables all three modifiers are misread, with the given outcomes |
| IrcClients.IrcClient.constructor | SudaGureum/IrcClient.cpp:97-110 | a new client has no history, and tables that satisfy the invariant of MODE and 005 |
| IrcClients.IrcClient.SetNickname | SudaGureum/IrcClient.cpp:118-123 | the nickname is set and one NICK for it is sent |
| IrcClients.IrcClient.Close | SudaGureum/IrcClient.cpp:273-286 | quitReady_ is set, one QUIT is sent and the close timer is started |
| IrcClients.IrcClient.Connect | SudaGureum/IrcClient.cpp:156-192 | without a first nickname nothing happens, otherwise the candidates are stored and the first is current |
| IrcClients.IrcClient.Connected | SudaGureum/IrcClient.cpp:176-191 | from any state USER and NICK for the first candidate are sent, and registration has begun |
| IrcClients.IrcClient.TryNextNickname | SudaGureum/IrcClient.cpp:194-205 | the next candidate is asked for, or the connection closed when there is none |
| IrcClients.IrcClient.ProcReply | SudaGureum/IrcClient.cpp:555-705 | 001 ends registration and fires its two events; 432, 433, 436 and 437 try the next nickname, only before it has ended |
| IrcClients.RegistrationRun | SudaGureum/IrcClient.cpp:156-205 | from any state and for every run of replies all that has been sent since is USER, NICK for the first candidates as long as the rejections say, and QUIT for each rejection after they run out, in this order; nickname_ is the last one asked for, and quitReady_ is set exactly when they run out |
| IrcClients.IrcClient.ProcSupport | SudaGureum/IrcClient.cpp:562-617 | tables and options become what the parameters between first and last say, and stay valid |
| IrcClients.IrcClient.ProcSupportToken | SudaGureum/IrcClient.cpp:567-615 | one parameter changes the tables, the options and the carried name as specified |
| IrcClients.IrcClient.InsertAll | SudaGureum/IrcClient.cpp:606-612 | the loop over the pairs inserts as the multi-index container does |
| IrcClients.IrcClient.ProcMode | SudaGureum/IrcClient.cpp:420-514 | only the named channel's participants change, as the modifier says; missing parameters are reported |
| WebSocketFrames.MaskTwice | SudaGureum/WebSocketParser.cpp:258-265 | masking undoes itself |
| WebSocketFrames.MaskOther | SudaGureum/WebSocketParser.cpp:258-265 | unmasking with another key gives the data if and only if the keys agree where they are used |
| WebSocketFrames.FrameIsPrefix | SudaGureum/WebSocketParser.cpp:107-208 | octets behind a whole frame do not change it |
| WebSocketServer.EncodeFrame | SudaGureum/WebSocketServer.cpp:16-47 | the octets are one complete frame, final, unmasked, with the opcode and the data, in the length form of its size |
| WebSocketFrames.ServerFrameDecodes | SudaGureum/WebSocketServer.cpp:16-47 | the encoded frame is read back with opcode and payload, whatever follows it |
| WebSocketFrames.ServerFrameShortest | SudaGureum/WebSocketServer.cpp:23-42 | no unmasked frame with as much payload is shorter |
| WebSocketDelivery.SampleFrames | SudaGureum/WebSocketServer.cpp:16-47 | the sample frames of RFC 6455 section 5.7, octet by octet: text, masked text, ping, and both extended lengths |
| WebSocketFrames.ClientFrameDecodes | SudaGureum/WebSocketParser.cpp:115-183 | a frame masked per RFC 6455 section 5.3 is read back with all its fields |
| WebSocketStream.Unmask | SudaGureum/WebSocketParser.cpp:258-265 | the loop over the payload in place is masking |
| WebSocketStream.WebSocketParser.ParsePayload | SudaGureum/WebSocketParser.cpp:312-347 | the assembled text is handed over, and its request to the callback if it parses and has one; the text is cleared if it parses, and what the library leaves if not |
| WebSocketStream.WebSocketParser.ParseEmptyFrame | SudaGureum/WebSocketParser.cpp:215-252 | assembly buffer, callbacks and return value for every empty frame |
| WebSocketStream.WebSocketParser.ParseFrame | SudaGureum/WebSocketParser.cpp:254-310 | assembly buffer, callbacks and return value for every frame with payload, masked or not |
| WebSocketStream.WebSocketParser.ParseFirstTwo | SudaGureum/WebSocketParser.cpp:113-137 | all fields and callbacks after the second header octet |
| WebSocketStream.WebSocketParser.ParseHeaderDone | SudaGureum/WebSocketParser.cpp:159-196 | all fields and callbacks after the last header octet, under either key rule |
| WebSocketStream.WebSocketParser.ParseHeaderByte | SudaGureum/WebSocketParser.cpp:111-198 | all fields and callbacks of a turn in the header state |
| WebSocketStream.WebSocketParser.ParsePayloadByte | SudaGureum/WebSocketParser.cpp:200-208 | all fields and callbacks of a turn in the payload state |
| WebSocketStream.WebSocketParser.Parse | SudaGureum/WebSocketParser.cpp:98-213 | fields and callbacks of a call are those of the automaton on the octets |
| WebSocketStream.StepNoError | SudaGureum/WebSocketParser.cpp:102-212 | no input leads to the error state |
| WebSocketRefinement.StepMatches | SudaGureum/WebSocketParser.cpp:107-210 | one octet extends the frame under way or completes it, exactly when the whole-stream reading says so |
| WebSocketRefinement.FeedIsSplit | SudaGureum/WebSocketParser.cpp:98-213 | from any point of a stream the callbacks are those of its whole frames in order, and the parser holds the beginning of the next |
| WebSocketRefinement.StreamIsFrames | SudaGureum/WebSocketParser.cpp:98-213 | from a fresh parser the callbacks of any stream, and the fragments kept at its end, are those of its frames |
| WebSocketDelivery.BufferBounds | SudaGureum/WebSocketParser.cpp:107-210 | on every stream the buffer is shorter than the header (at most 14) or payload it waits for |
| WebSocketDelivery.PiecesDoNotMatter | SudaGureum/WebSocketParser.cpp:98-213 | any division of a stream into calls gives the result of one call |
| WebSocketDelivery.ServerRoundTrip | SudaGureum/WebSocketServer.cpp:16-47 | encoded frames, cut in any way, reach the handlers as exactly one final unmasked frame each; the parser is at a frame boundary, its assembly buffer as these frames leave it |
| WebSocketDelivery.ClientRoundTrip | SudaGureum/WebSocketParser.cpp:145-208 | with the intended key copy, masked frames, cut in any way, reach the handlers unmasked; the parser is at a frame boundary, its assembly buffer as these frames leave it |
| WebSocketDelivery.WrittenUnmasks | SudaGureum/WebSocketParser.cpp:159-183 | with the key copy as written, they do if and only if each short frame's key agrees with the one retained |
| WebSocketDelivery.ShortMaskedFrameGarbled | SudaGureum/WebSocketParser.cpp:177-183 | a masked frame of one octet that the code as written delivers garbled |
| WebSocketDelivery.OneClientFrame | SudaGureum/WebSocketParser.cpp:82-347 | what a masked frame comes to, opcode by opcode and for final and other fragments |
| WebSocketDelivery.OneServerFrame | SudaGureum/WebSocketParser.cpp:82-347 | what an unmasked frame comes to, opcode by opcode; a ping is refused |
| WebSocketDelivery.Interleaving | SudaGureum/WebSocketParser.cpp:215-310 | payloads depend on the data frames alone, close and ping requests on the control frames alone, each in order |
| WebSocketDelivery.MessagesAssembled | SudaGureum/WebSocketParser.cpp:215-310 | whatever control frames are interleaved, each message is handed over as the concatenation of its fragments behind what an unparsed one has left; the texts are the ones sent if and only if all but the last parse; accepted control frames are delivered in order |
| WebSocketDelivery.RejectedTextStays | SudaGureum/WebSocketParser.cpp:301-306 | for any two messages of which the first does not parse, the second is handed over behind its remains |
| WebSocketDelivery.StreamAssembled | SudaGureum/WebSocketParser.cpp:98-347 | for every stream of octets in any pieces: its data frames divide into messages and an unfinished rest, and payloads, requests, control callbacks and the assembly buffer are what these give |
| WebSocketSending.SentIsOnTheWire | SudaGureum/Socket.h:122-196 | whatever threads send encoded frames, at quiescence without socket errors the queue is empty and the written bytes divide into exactly the frames of the messages sent, in order |
| WebSocketSending.SentIsHandled | SudaGureum/WebSocketServer.cpp:16-47 | and a parser that receives them in any pieces handles each message once, as it was sent |

## Left out

- asio sockets, SSL, resolvers, timers, signals and thread pools: the write queues see a socket as a step that completes an outstanding write with or without an error, at any time.
- C++ memory-model races: the deque accesses of `BufferedWriterSocket` outside `bufferWriteLock_` (`SudaGureum/Socket.h:151-154` and `:180`) are atomic steps of an interleaving.
- The `catch` of `BufferedWriterSocket::asyncWrite` (`SudaGureum/Socket.h:171-175`): the model has no exceptions out of the socket or the allocator.
- The write queues as classes: two threads inside one object cannot be expressed by methods, so each shared access is a step on a value of type `State`.
- IrcClients.IrcClient.SendMessage: the queue behind it is modelled in `IrcWriteQueue`; here the message only joins the history.
- IrcClients.IrcClient.ProcSupport: needs two parameters, because with fewer the iterators of the source leave the vector, which has no defined behaviour.
- Pbkdf2Code.Pbkdf2Sha256: excludes `c == UINT64_MAX` with `dkLen > 0`, for which the source does not end.
- WebSocketStream.WebSocketParser.ParsePayload: RapidJSON is a parameter that says which texts parse, which request they hold and what a failed parse in place leaves; an exception out of the callback itself is not modelled.
- IrcClients.IrcClient.ProcReply: needs a parameter for 001, which the source takes without looking (`SudaGureum/IrcClient.cpp:560`); who listens to the events is not part of the model.
- The retry of a failed connection, which is a comment in the source, and what the close timer does when it fires.
- Letters of IRC text: case folding covers ASCII letters, as in the C locale, and the regular expressions of the source range over ASCII; characters are compared by code, where a signed `char` compares by value.
- The effect of the mode letters `O l k b e I`: the source has only stubs for them, and the model does the same.
- The other commands of `procMessage` (JOIN, PART, PRIVMSG, NOTICE, PING, topics, NAMES) and events: single map updates and callbacks.
- `insecure_memzero`, the wrappers around the hash functions that only clear the stack, and compiler macros: no effect on results. `be32enc`, `be32dec` and `be64enc` are not in the file; they are taken as the big-endian conversions.
- scrypt, base64, HTTP upgrade and query strings, the WebSocket close handshake, database, archive, sessions, configuration and logging.
