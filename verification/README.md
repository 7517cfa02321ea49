# Model of the login server and of the ACE code it runs on

The repository is a small login server (`src/`) with a copy of the ACE library (`dep/ACE_wrappers/ace/`).
This project models the parts of it that hold state or carry an algorithm, and proves what they are for.

* `Barrier.dfy`: the reusable thread barrier. Class `AceBarrier` has one method for each stretch of code that
  runs under the lock; `System` puts any number of threads around it and interleaves arrivals, spurious wakeups,
  re-tests and shutdowns.
* `LittleEndian.dfy`, `BigNumber.dfy`, `Srp6.dfy`: numbers as byte strings, the big number with its kept arrays, and
  the SRP-6 arithmetic (RFC 5054 sections 2.5.3 and 2.6 with k = 3, RFC 2945 sections 3 and 3.1). The hash is any
  function from byte strings to 20 bytes.
* `AuthSession.dfy`, `LoginRuns.dfy`: one connection of the login server, message by message, and what holds over
  whole connections.
* `Messages.dfy`: the packets as a client builds and reads them.
* `KeptArrays.dfy`: what later challenges and proofs on a connection get from the arrays that its numbers keep.
* `ClientLogin.dfy`, `LoginExamples.dfy`: a client that knows the password and follows RFC 5054 and RFC 2945, with every
  string least significant byte first, as the server writes them: the RFCs write numbers most significant byte first,
  and RFC 2945 splits its string T in that order (`Srp6.ServerKeyIsRfcKeyIff` compares both). Exactly when the server
  accepts a proof of such a client after the first challenge of a connection, with examples for both outcomes.
* `VectorIO.dfy`, `MessageBlocks.dfy`: gather-write and scatter-read loops under partial transfers, and the batched
  sending of message-block chains. The operating system is a list of replies that can be anything legal.
* `BufferedSocket.dfy`: the output queue and the input buffer of a connection.
* `CrcDivision.dfy`, `TableCrc.dfy`, `Crc32.dfy`, `CrcCcitt.dfy`: the two table-driven CRCs against bit-serial division
  (clause 3.2.9 of IEEE 802.3-2008 for CRC-32). The loops of the two source files are the same at two widths, so they
  are modelled once, for any valid code, and each file's table is shown to make one.
* `WildMatch.dfy`, `FrameSize.dfy` (with `Arithmetic.dfy`): wildcard matching, greatest common divisor and frame size.
* `Sequences.dfy`, `Wrappers.dfy`: joining pieces and cutting at a character; optional values.
* `ByteBuffer.dfy`: the serialiser. `ArrayMap.dfy`, `ArgvTypeConverter.dfy`, `ArgShifter.dfy`: structures that are
  rearranged in place.

Classes follow the source's classes. Each method that changes state equates the new state with a function of the old
one, and the lemmas are about those functions.

Several things one would expect of this code do not hold. Each is stated with the exact condition under which it does:

* a barrier used by more threads than it counts can strand one of them until shutdown (`Barrier.StrandsIff`,
  `Barrier.ShutdownIsFinal`), and with fewer threads all of them can wait for ever (`Barrier.StuckIff`);
* `AsByteArray` pads little-endian numbers at the low end, so only zero and full-width numbers keep their value
  (`BigNumbers.RoundTripIff`), and the server's session key is that of RFC 2945 only for shared numbers of 32 bytes
  (`Srp6.ServerKeyIsRfcKeyIff`);
* the arrays it keeps are found by length alone and not dropped when the number changes (`BigNumbers.StaleIff`), so
  every greeting of a connection carries the first public number, and often the first salt (`KeptArrays.OneGreeting`,
  `KeptArrays.SecondGreetingIff`), and after one proof with another key of the same length the right one is judged
  with that key (`KeptArrays.OneKey`, `LoginExamples.KeptKeyIsRejected`);
* the server hashes numbers in their shortest forms, so a client with the right password can be rejected: for instance
  when its public number ends in a zero byte (`ClientLogin.LoginIff`, `LoginExamples.ShortIsRejected`);
* `memcmp` reads past the array of a short proof number (`LoginRuns.ComparisonIsExactIff`);
* `wild_match` never goes back in the text (`WildMatch.ExactIff`);
* `minimum_frame_size` overflows (`FrameSize.MinimumFrameSize`);
* erasing a range of an `ACE_Array_Map` needs elements behind the range, and a range up to the end is not erased at all
  although the header allows any valid range (`ArrayMaps.EraseRangeIff`);
* a negative count breaks `ACE_Arg_Shifter` (`ArgShifting.StepKeepsLayoutIff`);
* `sendv_n` on entries without bytes reports end of file (`VectorIO.VectorIsSimpleIff`);
* a refusing peer or a failed queue operation tears a connection's output stream (`BufferedSockets.StepConservesIff`);
* texts with a NUL do not survive `ByteBuffer` (`ByteBuffers.RoundTripIff`).

`SetQword` adds to the number's old value, unlike the other setters.

## Model

| member | source | states |
|---|---|---|
| `Barrier.AceBarrier.Wait` | dep/ACE_wrappers/ace/Barrier.cpp:77-124 | one `wait()` from taking the lock to returning or sleeping changes count, generation and pointers as the abstract arrival does |
| `Barrier.AceBarrier.WakeUp` | dep/ACE_wrappers/ace/Barrier.cpp:108-121 | what a woken thread decides depends on its own sub-barrier, except for the shutdown test |
| `Barrier.AceBarrier.Shutdown` | dep/ACE_wrappers/ace/Barrier.cpp:126-150 | nulls both sub-barriers and refills the current one; a second call fails |
| `Barrier.ReachableInv` | dep/ACE_wrappers/ace/Barrier.cpp:77-150 | in every reachable state, for every number of threads and every count: the current sub-barrier counts who is missing from the current round, the other one is full, each completed round was joined by as many different threads as the barrier counts, and each thread inside is held on the sub-barrier of the last round it joined |
| `Barrier.NobodyLeavesEarly` | dep/ACE_wrappers/ace/Barrier.cpp:77-124 | whatever the number of threads, calls return 0 before a shutdown and -1 after it; one that returns 0 does so only when the round it joined has been completed by as many different threads as the barrier counts; with exactly that many threads no k-th `wait()` returns 0 before every thread has made k calls |
| `Barrier.NoWakeupIsLost` | dep/ACE_wrappers/ace/Barrier.cpp:83-121 | whatever the number of threads, sleepers are on the current sub-barrier of a live barrier with their exit test false, and the other sub-barrier is full |
| `Barrier.InStepIff` | dep/ACE_wrappers/ace/Barrier.cpp:83-121 | no thread is ever two calls ahead of another before shutdown just when there are no more threads than the barrier counts, or it counts none |
| `Barrier.SomeoneCanLeave` | dep/ACE_wrappers/ace/Barrier.cpp:93-121 | with at least as many threads as the barrier counts, all of them inside `wait()`, one is awake and its next step returns |
| `Barrier.StuckIff` | dep/ACE_wrappers/ace/Barrier.cpp:93-121 | a state in which all threads are inside and none can leave is reachable just when there are threads, but fewer than the barrier counts, or it counts none |
| `Barrier.StuckStays` | dep/ACE_wrappers/ace/Barrier.cpp:105-109 | only a shutdown ends such a state: wakeups and re-tests do not |
| `Barrier.ShutdownIsFinal` | dep/ACE_wrappers/ace/Barrier.cpp:126-150 | whatever the number of threads, the first shutdown returns 0 and later ones -1, and at any time after it every blocked thread, stranded or not, is awake with its exit test true and every step of a call returns -1 |
| `Barrier.StrandsIff` | dep/ACE_wrappers/ace/Barrier.cpp:83-121 | a thread whose round has completed can be asleep in the same call again just when more threads use the barrier than it counts and it counts at least two |
| `LittleEndian.FitsIff` | src/Util/BigNumber.cpp:148-151 | a number needs at most n bytes just when it is below 256 to the n |
| `LittleEndian.MinimalOfValue` | src/Util/BigNumber.cpp:163-185 | a byte string without a zero at its high end is the shortest form of its value |
| `BigNumbers.BigNumber.SetBinary` | src/Util/BigNumber.cpp:55-61 | reads bytes least significant first, through the reversed copy; kept arrays stay |
| `BigNumbers.BigNumber.SetQword` | src/Util/BigNumber.cpp:48-53 | shifts the old value up by 32 bits and adds the argument |
| `BigNumbers.BigNumber.SetDword` | src/Util/BigNumber.cpp:43-46 | the number becomes the argument, and the kept arrays stay |
| `BigNumbers.BigNumber.Assign` | src/Util/BigNumber.cpp:73-77 | takes the other number's value but not its arrays |
| `BigNumbers.BigNumber.ModExp` | src/Util/BigNumber.cpp:136-146 | power modulo the third number, in a fresh object |
| `BigNumbers.BigNumber.AsByteArray` | src/Util/BigNumber.cpp:163-185 | returns the array kept for the length, or else a new encoding that is kept from then on |
| `BigNumbers.EncodingShifts` | src/Util/BigNumber.cpp:163-185 | reading an encoding back multiplies the number by 256 for every byte of padding |
| `BigNumbers.RoundTripIff` | src/Util/BigNumber.cpp:55-61 | the round trip gives the number back just when nothing is padded or it is zero |
| `BigNumbers.FixedWidthIff` | src/Util/BigNumber.cpp:163-185 | the array is the number padded at the high end just for zero and numbers that fill it |
| `BigNumbers.SameArrayIff` | src/Util/BigNumber.cpp:163-185 | two numbers have one array just when their shifted values agree |
| `BigNumbers.UnchangedNumberIsCurrent` | src/Util/BigNumber.cpp:163-185 | in any run in which the number keeps its value and is asked for in one byte order, every array handed out is a fresh encoding |
| `BigNumbers.OrdersClashIff` | src/Util/BigNumber.cpp:163-185 | an array in one order is that of another number in the other order just when both numbers are zero, or both fill it with each other's bytes reversed |
| `BigNumbers.StaleIff` | src/Util/BigNumber.cpp:43-185 | at the end of any run of a new number, with both byte orders, what is handed out is right just when the length was not asked for before; or it was in the same order, and the value then and the value now, each shifted by its padding, agree; or in the other order, under the condition of `OrdersClashIff` |
| `BigNumbers.SecondOrderIsStale` | src/Util/BigNumber.cpp:163-185 | the number 1 asked for in two bytes in both orders is handed out wrongly the second time |
| `Srp6.Agreement` | src/DWCore/AuthServer.cpp:305-356 | for every group, password and choice of secrets the server's shared number is the client's of RFC 5054 section 2.6 |
| `Srp6.PowersMean` | src/Util/BigNumber.cpp:136-146 | powers are powers: exponents 0, 1 and sums |
| `Srp6.ClientBase` | src/DWCore/AuthServer.cpp:307 | taking three times the verifier out of B leaves the power of the server's secret |
| `Srp6.KeysAgreeIff` | src/DWCore/AuthServer.cpp:358-385 | interleaving loses nothing: two shared strings give one key under every hash just when they are equal |
| `Srp6.InterleaveMeans` | src/DWCore/AuthServer.cpp:358-385 | even places of the key hold the digest of the even-numbered bytes, odd places that of the odd-numbered ones |
| `Srp6.TIsRfcT` | src/DWCore/AuthServer.cpp:358-362 | the string T is what RFC 2945 section 3.1 makes of any string most significant byte first: leading zeros removed, and one more byte if that leaves an odd number |
| `Srp6.ServerKeyIsRfcKeyIff` | src/DWCore/AuthServer.cpp:362-385 | the server's key is the one of RFC 2945 section 3.1 under every hash just when the shared number needs 32 bytes; with T split most significant byte first its bytes must also read the same from both ends |
| `Srp6.SameSessionKeyIff` | src/DWCore/AuthServer.cpp:305-385 | for every group of at most 32 bytes, password and secrets both ends derive one session key under every hash just when the shared number needs 32 bytes |
| `AuthSession.SourceGroup` | src/DWCore/AuthServer.cpp:112-113 | the modulus needs 32 bytes and the generator one, as the results about logins ask |
| `AuthSession.GreetingIsReadIff` | src/DWCore/AuthServer.cpp:281-327 | a client that reads the greeting at its fixed places finds B, g, N, salt and noise just when the salt has 32 bytes |
| `AuthSession.PasswordDigestIs` | src/DWCore/AuthServer.cpp:178-189 | the 20 bytes hashed for the private key are the digest whose number the account holds, leading zeros included; a longer number gives zeros |
| `AuthSession.GroupBits` | src/DWCore/AuthServer.cpp:388-400 | a bit of H(N) xor H(g) is set just when it is set in exactly one of the two |
| `Messages.ChallengeIsUnderstood` | src/DWCore/AuthServer.cpp:233-274 | a challenge packet, field by field, is taken as a whole with the name and the build in it |
| `Messages.ChallengeTakenIff` | src/DWCore/AuthServer.cpp:237-262 | 35 bytes or more that begin like a challenge are taken and answered just when the size field is at least 31 and all of it is there; otherwise four bytes are taken |
| `Messages.OtherCommandsStay` | src/DWCore/AuthServer.cpp:98-105 | reconnecting, unknown commands and a realm request before a proof take nothing and change nothing |
| `Messages.AnswersAreRead` | src/DWCore/AuthServer.cpp:196-510 | a client finds the proof and the flags in an acceptance, the code in a rejection and four zero bytes in the realm list |
| `Messages.RealmRequestIff` | src/DWCore/AuthServer.cpp:459-510 | a realm request gets the list just when the session is authenticated and the account is there; without the account the connection is closed unanswered |
| `Messages.TogetherIsInTurn` | src/DWCore/AuthServer.cpp:135-168 | what arrives behind a whole challenge, proof or realm request in one piece is read as if it had come after it |
| `AuthSession.AuthServer.SetVSFields` | src/DWCore/AuthServer.cpp:171-194 | fresh salt, hash bytes with leading zeros restored, and the verifier of the private key |
| `AuthSession.AuthServer.HandleLogonChallenge` | src/DWCore/AuthServer.cpp:233-330 | as the specification: what is consumed on each failure, the account read, the greeting sent |
| `AuthSession.AuthServer.Interleaved` | src/DWCore/AuthServer.cpp:359-385 | the two copying and two hashing loops give the interleaved key |
| `AuthSession.AuthServer.HandleLogonProof` | src/DWCore/AuthServer.cpp:332-445 | as the specification: short packet, zero A, key and proof numbers, acceptance or rejection |
| `AuthSession.AuthServer.HandleRealmList` | src/DWCore/AuthServer.cpp:459-492 | takes five bytes, closes the connection if the account is gone, else sends the list |
| `AuthSession.Dispatch` | src/DWCore/AuthServer.cpp:138-166 | a handler that returns true has made the buffer shorter |
| `AuthSession.AuthServer.Read` | src/DWCore/AuthServer.cpp:135-168 | the dispatch loop ends on every buffer, in the state that repeated dispatch gives |
| `LoginRuns.StreamIsConserved` | src/DWCore/AuthServer.cpp:135-168 | however the stream is cut, consumed bytes followed by buffered ones are what arrived until the connection was closed |
| `LoginRuns.RealmListNeedsProof` | src/DWCore/AuthServer.cpp:98-105 | on every connection each realm list is preceded by an accepted proof, and the session is authenticated just when there was one |
| `LoginRuns.AuthenticatedIff` | src/DWCore/AuthServer.cpp:336-445 | on every connection the session is authenticated just when one of the comparisons made came out equal, and each was made with the public number, not zero, and the 20 bytes of a whole proof packet that was received |
| `LoginRuns.ComparisonIsExactIff` | src/DWCore/AuthServer.cpp:414-418 | the bytes compared are the digest, whatever lies behind the array, just when the digest's last byte is not zero |
| `LoginRuns.AfterChallenge` | src/DWCore/AuthServer.cpp:233-330 | after a first whole challenge: B made from verifier and secret, greeting sent with its array of 32 bytes, arrays fresh, verifier matching the password hash |
| `LoginRuns.CutIsWhole` | src/DWCore/AuthServer.cpp:135-344 | a message in pieces is handled as if it had come at once, if all pieces but the last leave fewer bytes than its handler asks for: a challenge may be cut within its first 34 bytes, a proof and a realm request anywhere |
| `LoginRuns.CutTooLate` | src/DWCore/AuthServer.cpp:237-260 | of a challenge of which 35 bytes or more, but not all, have arrived four bytes are taken and no greeting is sent |
| `KeptArrays.OneGreeting` | src/DWCore/AuthServer.cpp:305-321 | whatever arrives on a connection, all its greetings carry one public number, and those with salts of one length one salt |
| `KeptArrays.OneKey` | src/DWCore/AuthServer.cpp:349-412 | whatever arrives, all proofs judged with session keys of one length are judged with one session key; likewise for salt and public number |
| `KeptArrays.SecondGreetingIff` | src/DWCore/AuthServer.cpp:295-321 | the greeting of a second challenge has the public number of the first one, and its salt if the two salts have one length; it is right just when the two numbers, each shifted by its padding, agree and the salts are equal or of different lengths |
| `KeptArrays.SecondGreetingIsWrong` | src/DWCore/AuthServer.cpp:295-316 | in the source's group, for every secret of the server, there are two accounts for which the second greeting has a wrong public number |
| `KeptArrays.SecondSaltIsWrong` | src/DWCore/AuthServer.cpp:295-321 | two accounts with one verifier and different salts of one length get one salt |
| `ClientLogin.UInputsAgreeIff` | src/DWCore/AuthServer.cpp:349-352 | server and client hash one string for u just when both public numbers need 32 bytes |
| `ClientLogin.KnowsPassword` | src/DWCore/AuthServer.cpp:171-190 | for an account that holds the number of a password digest the server's private key is the hash of salt and digest |
| `ClientLogin.InputsAgreeIff` | src/DWCore/AuthServer.cpp:388-412 | the string the server hashes is H(N) xor H(g), H(I), s, A, B, K, each in full, just when group digest and both public numbers have full length and the server uses the client's session key |
| `ClientLogin.KeyFitsIff` | src/DWCore/AuthServer.cpp:349-410 | with full public numbers the server hashes the client's session key just when its own does not end in a zero byte, every earlier comparison on the connection with 40 bytes of key was made with the client's, and, if there was none, the shared number needs 32 bytes or the hash function does not tell the two splits apart |
| `ClientLogin.ProofInputsAgreeIff` | src/DWCore/AuthServer.cpp:349-412 | for a client that knows the password both conditions together decide whether the proof strings agree, after any earlier proofs |
| `ClientLogin.AcceptedIff` | src/DWCore/AuthServer.cpp:349-418 | any proof of such a client, first or later, compares equal, whatever lies in memory, just when it does not end in a zero byte and the strings agree in that sense or the hash function has a collision there |
| `ClientLogin.LoginIff` | src/DWCore/AuthServer.cpp:135-445 | over whole connections: after the first challenge and any number of proofs of anybody, in whatever pieces, the proof of a client that knows the password is accepted, whatever lies in memory, just when its public number is not zero and its proof compares equal in that sense |
| `ClientLogin.HonestLogin` | src/DWCore/AuthServer.cpp:135-492 | when nothing is short, challenge, proof and realm request, in whatever pieces, give exactly greeting, acceptance with the proof that the client expects, and realm list |
| `LoginExamples.ShortIsRejected` | src/DWCore/AuthServer.cpp:349-444 | under a hash function that tells lengths apart every such client's first proof is answered with a rejection if its public number or the server's is short |
| `LoginExamples.SevenIsRejected` | src/DWCore/AuthServer.cpp:349-444 | in the source's group the client with secret 1 is one of them, whatever the server draws |
| `LoginExamples.TopGetsIn` | src/DWCore/AuthServer.cpp:135-492 | for one group, password and choice of secrets nothing is short, and the whole login goes through |
| `LoginExamples.KeptKeyIsRejected` | src/DWCore/AuthServer.cpp:349-444 | the same client is rejected when a proof with another public number came first |
| `VectorIO.TransferAll` | dep/ACE_wrappers/ace/ACE.cpp:1568-1616 | the simple loop returns the length after moving everything, or 0 or -1 after moving less |
| `VectorIO.HowItEnds` | dep/ACE_wrappers/ace/ACE.cpp:1568-1616 | the result is the length just when the counts reach it, 0 just when a count of zero ends the loop, and -1 just when a failure, an unsuccessful wait or the end of the replies does |
| `VectorIO.LoopIsSimple` | dep/ACE_wrappers/ace/ACE.cpp:1743-1803 | as long as bytes are left, the loop over a vector goes on as the simple one under every behaviour of the system |
| `VectorIO.VectorIsSimpleIff` | dep/ACE_wrappers/ace/ACE.cpp:1743-1803 | the vector form is the simple form on the joined bytes under every behaviour of the system just when there are bytes to move or no entries |
| `VectorIO.WillingSystemMovesAll` | dep/ACE_wrappers/ace/ACE.cpp:1568-1616 | a system that always moves something or becomes ready gets every byte |
| `VectorIO.Advance` | dep/ACE_wrappers/ace/ACE.cpp:1788-1799 | after skipping and shortening entries the vector refers to exactly the addresses behind the moved ones |
| `VectorIO.SendvN` | dep/ACE_wrappers/ace/ACE.cpp:1743-1803 | at every exit bytes on the wire and bytes still referred to make up the original ones, and the count is that of the former |
| `VectorIO.SendvNTimed` | dep/ACE_wrappers/ace/ACE.cpp:1805-1884 | the same, and the handle's blocking mode is restored on every path |
| `VectorIO.SendvEither` | dep/ACE_wrappers/ace/ACE.inl:200-218 | the same with or without a timeout |
| `VectorIO.Handle.RestoreNonBlocking` | dep/ACE_wrappers/ace/ACE.cpp:2245-2269 | clears the flag only if it was not set before |
| `VectorIO.RecvvN` | dep/ACE_wrappers/ace/ACE.cpp:970-1025 | however the peer's bytes are cut up, memory ends as if the first ones had been stored at once, and no more are read |
| `VectorIO.FillConcat` | dep/ACE_wrappers/ace/ACE.cpp:1010-1021 | storing in two parts is storing at once, also where cells overlap |
| `VectorIO.ContentsOfFill` | dep/ACE_wrappers/ace/ACE.cpp:970-1025 | in cells that do not overlap the received bytes are found again |
| `MessageBlocks.AllPiecesFit` | dep/ACE_wrappers/ace/ACE.cpp:1997-2017 | the chunks that are collected are not empty, none is longer than the limit, and they have the length of the blocks together |
| `MessageBlocks.ChainIsInOrder` | dep/ACE_wrappers/ace/ACE.cpp:1993-2052 | a chain built of messages, each of several parts, has the bytes of the parts, one message after the other |
| `MessageBlocks.CallsAreFewest` | dep/ACE_wrappers/ace/ACE.cpp:2020-2040 | a system that takes all it is given is called once for every full vector and once for the rest |
| `MessageBlocks.BatchesRefineSimple` | dep/ACE_wrappers/ace/ACE.cpp:1981-2079 | sending in batches progresses and returns like sending the joined bytes as one buffer to a system whose counts are cut off at batch ends |
| `MessageBlocks.BatchesEnd` | dep/ACE_wrappers/ace/ACE.cpp:1981-2079 | a chain is sent completely with its length returned, or not completely with 0 or -1 |
| `MessageBlocks.CollectBlock` | dep/ACE_wrappers/ace/ACE.cpp:2003-2049 | collecting a block keeps the bytes on the wire a prefix and leaves fewer entries than the limit |
| `MessageBlocks.SendN` | dep/ACE_wrappers/ace/ACE.cpp:1981-2079 | the bytes on the wire are the first reported ones of the blocks in `cont` then `next` order, also when a middle batch fails; all of them on success |
| `BufferedSockets.StepConservesIff` | src/DWCore/BufferedSocket.cpp:118-211 | a step keeps bytes taken by the peer followed by queued ones equal to what was accepted just when it is none of the failures listed, which speak of the queue, the peer and the outcome of queueing and scheduling only; then a waiting byte has a wakeup |
| `BufferedSockets.SendTellsIff` | src/DWCore/BufferedSocket.cpp:118-169 | `send` returns true just when the whole buffer went out at once, or the peer did not refuse and the rest was queued and a wakeup scheduled |
| `BufferedSockets.OutputTellsIff` | src/DWCore/BufferedSocket.cpp:171-211 | `handle_output` returns -1, 1 or 0 exactly as refusal, a whole block gone, and the rest say, and cancels the wakeup just when nothing waits |
| `BufferedSockets.RunConserves` | src/DWCore/BufferedSocket.cpp:118-211 | in every run without such a failure bytes taken by the peer followed by queued ones are the buffers for which `send` returned true |
| `BufferedSockets.WillingPeerGetsAll` | src/DWCore/BufferedSocket.cpp:171-211 | a peer that takes something at every wakeup gets all queued bytes in order and the wakeups stop |
| `BufferedSockets.BufferedSocket.SendBytes` | src/DWCore/BufferedSocket.cpp:118-169 | direct send, queueing of the rest and scheduling as the specification, with every failure |
| `BufferedSockets.BufferedSocket.HandleOutput` | src/DWCore/BufferedSocket.cpp:171-211 | takes the oldest block, sends, and puts the rest back at the front |
| `BufferedSockets.BufferedSocket.Recv` | src/DWCore/BufferedSocket.cpp:64-87 | takes bytes from the front, or nothing when too few are buffered |
| `BufferedSockets.TooMuchIsSkipped` | src/DWCore/BufferedSocket.cpp:64-87 | a read of more than is buffered changes nothing for the other reads |
| `BufferedSockets.BufferedSocket.Crunch` | dep/ACE_wrappers/ace/Message_Block.cpp:124-140 | the unread bytes move to the start of the buffer and stay the same |
| `BufferedSockets.BufferedSocket.HandleInput` | src/DWCore/BufferedSocket.cpp:213-239 | received bytes stay consumed ones followed by buffered ones, however often the user takes some; a full buffer is taken for the end of the stream |
| `CrcDivision.BurstSeparates` | dep/ACE_wrappers/ace/ACE_crc32.cpp:100 | for any register with an injective bit step, messages that differ only in a window as long as the register leave different registers |
| `TableCrc.ComputeDivides` | dep/ACE_wrappers/ace/ACE_crc32.cpp:100 | with a valid code, one step through the table divides eight bits, lowest first |
| `TableCrc.OfString` | dep/ACE_wrappers/ace/ACE_crc32.cpp:105-118 | the check value of the bytes before the NUL |
| `TableCrc.OfBuffer` | dep/ACE_wrappers/ace/ACE_crc32.cpp:120-134 | the check value by bit-serial division, from any start value |
| `TableCrc.OfIovec` | dep/ACE_wrappers/ace/ACE_crc32.cpp:136-151 | the check value of the buffers joined |
| `TableCrc.CheckChains` | dep/ACE_wrappers/ace/ACE_crc_ccitt.cpp:88-102 | checking two messages one after the other is checking them joined |
| `TableCrc.AppendedIsConstant` | dep/ACE_wrappers/ace/ACE_crc32.cpp:120-134 | a message followed by its check value, low byte first, has a check value that depends on neither message nor start value |
| `TableCrc.BurstIsSeen` | dep/ACE_wrappers/ace/ACE_crc_ccitt.cpp:68-102 | a valid code gives different check values to messages of one length that differ only within as many consecutive bits as its register has |
| `Crc32.TableIsShift8` | dep/ACE_wrappers/ace/ACE_crc32.cpp:27-93 | each of the 256 entries is its index divided through eight bits by the generator of IEEE 802.3 |
| `Crc32.CodeIsValid` | dep/ACE_wrappers/ace/ACE_crc32.cpp:27-100 | table, generator and width are a valid code, so the loops compute its check value |
| `Crc32.BurstIsDetected` | dep/ACE_wrappers/ace/ACE_crc32.cpp:100-151 | messages that differ within 32 consecutive bits have different check values |
| `Crc32.ResidueIs` | dep/ACE_wrappers/ace/ACE_crc32.cpp:120-134 | that constant is 0x2144DF1C |
| `CrcCcitt.TableIsShift8` | dep/ACE_wrappers/ace/ACE_crc_ccitt.cpp:27-61 | each of the 256 entries is its index divided through eight bits by the generator of the 16-bit code |
| `CrcCcitt.CodeIsValid` | dep/ACE_wrappers/ace/ACE_crc_ccitt.cpp:27-68 | table, generator and width are a valid code, so the loops compute its check value |
| `CrcCcitt.BurstIsDetected` | dep/ACE_wrappers/ace/ACE_crc_ccitt.cpp:68-119 | messages that differ within 16 consecutive bits have different check values |
| `CrcCcitt.ResidueIs` | dep/ACE_wrappers/ace/ACE_crc_ccitt.cpp:88-102 | that constant is 0x0F47 |
| `WildMatch.WildMatch` | dep/ACE_wrappers/ace/ACE.cpp:3424-3491 | equal pointers match and a null pointer does not; else the pointer loop stays inside both strings, ends, and returns what the scan over tokens returns |
| `WildMatch.GlobIsFits` | dep/ACE_wrappers/ace/ACE.cpp:3424-3491 | matching a pattern with escapes, character by character, is matching its tokens on folded text |
| `WildMatch.FoldIsSame` | dep/ACE_wrappers/ace/ACE.cpp:3372-3377 | folded characters are equal just when they are equal or, if case does not matter, the capital and small form of one letter |
| `WildMatch.PlainIff` | dep/ACE_wrappers/ace/ACE.cpp:3424-3491 | a pattern without wildcards and backslashes matches just the texts with the same characters, case-sensitively only itself |
| `WildMatch.MatchedIsSound` | dep/ACE_wrappers/ace/ACE.cpp:3424-3491 | a reported match is a match |
| `WildMatch.OrderlyIsComplete` | dep/ACE_wrappers/ace/ACE.cpp:3436-3485 | in an orderly pattern no match is missed |
| `WildMatch.WildIsMissed` | dep/ACE_wrappers/ace/ACE.cpp:3472-3479 | every other piece after a star has a text whose match is missed |
| `WildMatch.ExactIff` | dep/ACE_wrappers/ace/ACE.cpp:3424-3491 | the function agrees with the meaning of a pattern on every text just when the pattern has no star, or ends in one and has between stars only one repeated literal followed by `?`, or matches nothing |
| `WildMatch.SecondTryIsLost` | dep/ACE_wrappers/ace/ACE.cpp:3472-3479 | "abb" fits "*b" and is rejected |
| `FrameSize.GcdLoop` | dep/ACE_wrappers/ace/ACE.cpp:2943-2954 | the loop computes Euclid's function |
| `FrameSize.GcdIsGcd` | dep/ACE_wrappers/ace/ACE.cpp:2943-2954 | the result divides both numbers and every common divisor divides it |
| `FrameSize.Bezout` | dep/ACE_wrappers/ace/ACE.cpp:2943-2954 | the result is a combination of the two numbers |
| `FrameSize.QuotientIsLcm` | dep/ACE_wrappers/ace/ACE.cpp:2991-2996 | product divided by greatest common divisor is the least common multiple |
| `FrameSize.MinimumFrameSize` | dep/ACE_wrappers/ace/ACE.cpp:2958-2998 | zero gives the other period; else the result is the least common multiple just when one period divides the other or the product fits |
| `ByteBuffers.ByteBuffer.Append` | src/Util/ByteBuffer.h:348-359 | the bytes go to the write position over what is there, and the vector grows as needed |
| `ByteBuffers.OverwrittenMeans` | src/Util/ByteBuffer.h:348-359 | exactly the written places change and a gap is filled with zeros; writing nothing changes nothing |
| `ByteBuffers.ByteBuffer.AppendText` | src/Util/ByteBuffer.h:139-144 | the two appends are one of the text with a NUL |
| `ByteBuffers.ByteBuffer.AppendUnsigned` | src/Util/ByteBuffer.h:77-99 | appends the fixed-width form, least significant byte first |
| `ByteBuffers.ByteBuffer.AppendSigned` | src/Util/ByteBuffer.h:101-124 | appends the two's complement |
| `ByteBuffers.ByteBuffer.AppendPackGUID` | src/Util/ByteBuffer.h:377-395 | the loop writes the mask and the bytes that are not zero |
| `ByteBuffers.PackedGuidLength` | src/Util/ByteBuffer.h:377-395 | a packed GUID takes one byte and one for each of its bytes that is not zero |
| `ByteBuffers.ByteBuffer.ReadUnsigned` | src/Util/ByteBuffer.h:272-286 | the little-endian number at the read position, or an exception that moves nothing |
| `ByteBuffers.ByteBuffer.ReadText` | src/Util/ByteBuffer.h:220-231 | the bytes up to a NUL or the end |
| `ByteBuffers.ByteBuffer.ReadSigned` | src/Util/ByteBuffer.h:184-206 | the number whose two's complement stands at the read position, or an exception that moves nothing |
| `ByteBuffers.ByteBuffer.ReadSkip` | src/Util/ByteBuffer.h:265-270 | moves past bytes that are there, or throws and stays |
| `ByteBuffers.ByteBuffer.ReadPackGUID` | src/Util/ByteBuffer.h:296-313 | the GUID named by the mask; an exception in the middle has consumed the bytes before |
| `ByteBuffers.ByteBuffer.Put` | src/Util/ByteBuffer.h:397-402 | replaces exactly the named bytes or throws and changes nothing |
| `ByteBuffers.FieldGivesBack` | src/Util/ByteBuffer.h:272-313 | one field of any kind between other bytes is read back with the position behind it, except a text with a NUL |
| `ByteBuffers.RoundTripIff` | src/Util/ByteBuffer.h:139-313 | any list of fields between other bytes is read back just when no text holds a NUL |
| `ByteBuffers.WriteThenReadIff` | src/Util/ByteBuffer.h:139-395 | fields written to an empty buffer are read back with nothing left just when no text holds a NUL |
| `ByteBuffers.CutFieldIsRefused` | src/Util/ByteBuffer.h:279-313 | a number or GUID that is cut short throws; the read position stays, or is behind the bytes of the GUID that were there |
| `ByteBuffers.CutTextIsRead` | src/Util/ByteBuffer.h:220-231 | a text without its NUL is read up to the end |
| `ArrayMaps.ArrayMap.Find` | dep/ACE_wrappers/ace/Array_Map.cpp:210-224 | the position of the key, or the end just when the map lacks it |
| `ArrayMaps.ArrayMap.Insert` | dep/ACE_wrappers/ace/Array_Map.cpp:94-120 | adds a new key, keeps the value of an old one, and returns where the key is; keys stay unique |
| `ArrayMaps.ArrayMap.InsertRange` | dep/ACE_wrappers/ace/Array_Map.cpp:122-134 | the map gains the elements whose keys are new |
| `ArrayMaps.InsertAllMerges` | dep/ACE_wrappers/ace/Array_Map.cpp:122-134 | old values win over new ones, and of several new ones with one key the first |
| `ArrayMaps.ArrayMap.EraseAtPosition` | dep/ACE_wrappers/ace/Array_Map.cpp:151-176 | exactly that key goes; a position behind the end changes nothing |
| `ArrayMaps.EraseAtKeepsMap` | dep/ACE_wrappers/ace/Array_Map.cpp:151-176 | moving the last element into the hole removes one key from the finite map |
| `ArrayMaps.ArrayMap.EraseKey` | dep/ACE_wrappers/ace/Array_Map.cpp:178-190 | exactly that key goes, and the count says whether it was there |
| `ArrayMaps.ArrayMap.EraseBetween` | dep/ACE_wrappers/ace/Array_Map.cpp:192-201 | keeps keys unique, and removes exactly the range just under the stated condition |
| `ArrayMaps.EraseRangeIff` | dep/ACE_wrappers/ace/Array_Map.cpp:192-201 | exactly the range goes just when it is empty, or it ends before the last element and at most one of its elements lacks one behind the range; otherwise the size that is left is stated, and a range up to the end stays |
| `ArrayMaps.ArrayMap.Grow` | dep/ACE_wrappers/ace/Array_Map.cpp:242-269 | contents stay and the capacity becomes the larger of the old one and what is needed |
| `ArrayMaps.ArrayMap.Clear` | dep/ACE_wrappers/ace/Array_Map.cpp:203-208 | the map is empty and the capacity stays |
| `ArrayMaps.ArrayMap.Swap` | dep/ACE_wrappers/ace/Array_Map.cpp:84-92 | the two maps exchange contents and capacity |
| `ArrayMaps.ArrayMap.Count` | dep/ACE_wrappers/ace/Array_Map.inl:115-122 | one for a key that is there, else zero |
| `ArrayMaps.ArrayMap.At` | dep/ACE_wrappers/ace/Array_Map.inl:124-131 | indexing adds a missing key with the default value and changes nothing else |
| `ArgvConversion.AlignAgreesIff` | dep/ACE_wrappers/ace/Argv_Type_Converter.cpp:104-131 | after alignment the lists agree on the remaining arguments just when each of their texts was there often enough |
| `ArgvConversion.AlignPermutes` | dep/ACE_wrappers/ace/Argv_Type_Converter.cpp:104-131 | alignment only reorders |
| `ArgvConversion.ArgvTypeConverter.AlignCharWithWchar` | dep/ACE_wrappers/ace/Argv_Type_Converter.cpp:104-133 | the nested loops and the clean-up as the specification |
| `ArgvConversion.ArgvTypeConverter.AlignWcharWithChar` | dep/ACE_wrappers/ace/Argv_Type_Converter.cpp:135-165 | the nested loops and the clean-up as the specification |
| `ArgvConversion.ArgvTypeConverter.CleanUp` | dep/ACE_wrappers/ace/Argv_Type_Converter.cpp:167-189 | frees the duplicates of dropped arguments, shortens both lists and clears the flags |
| `ArgvConversion.ArgvTypeConverter.GetTcharArgv` | dep/ACE_wrappers/ace/Argv_Type_Converter.inl:7-21 | aligns first if the other list was out |
| `ArgvConversion.ArgvTypeConverter.GetAsciiArgv` | dep/ACE_wrappers/ace/Argv_Type_Converter.inl:23-36 | aligns first if the other list was out |
| `ArgvConversion.ArgvTypeConverter.Dispose` | dep/ACE_wrappers/ace/Argv_Type_Converter.cpp:52-79 | the destructor frees what the specification says |
| `ArgvConversion.UseInv` | dep/ACE_wrappers/ace/Argv_Type_Converter.cpp:104-189 | the flags say which list was asked for last, both hold the same texts, and each duplicate is freed or still listed, after every request, reordering or lowered count |
| `ArgvConversion.SwitchingListsAgrees` | dep/ACE_wrappers/ace/Argv_Type_Converter.inl:7-36 | in every run, whichever list was asked for and used last, the other one agrees with it in every remaining argument when it is asked for, and the same one comes back as it is |
| `ArgvConversion.EachDuplicateIsFreedOnce` | dep/ACE_wrappers/ace/Argv_Type_Converter.cpp:52-79 | in every run each duplicate has been freed exactly once after the destructor, and nothing else has |
| `ArgShifting.ArgShifter.constructor` | dep/ACE_wrappers/ace/Arg_Shifter.cpp:45-69 | the arguments are copied and the vector emptied; without memory nothing moves and nothing is left to visit |
| `ArgShifting.ArgShifter.ConsumeArg` | dep/ACE_wrappers/ace/Arg_Shifter.cpp:152-171 | called with any number, when what it copies lies inside the arrays: a block goes in front of the earlier consumed ones, in order, or nothing changes when too few are left |
| `ArgShifting.ArgShifter.IgnoreArg` | dep/ACE_wrappers/ace/Arg_Shifter.cpp:173-192 | likewise: a block goes behind the earlier ignored ones and is counted |
| `ArgShifting.ArgShifter.GetCurrent` | dep/ACE_wrappers/ace/Arg_Shifter.cpp:78-88 | the next argument to visit, if one is left |
| `ArgShifting.StepKeepsLayoutIff` | dep/ACE_wrappers/ace/Arg_Shifter.cpp:152-192 | the layout of the vector survives a call just when its number is not negative |
| `ArgShifting.AllVisited` | dep/ACE_wrappers/ace/Arg_Shifter.cpp:152-192 | after any calls that visit everything the vector is a rearrangement of the arguments, with the ignored ones first in their original order and counted |

## Left out

- OpenSSL numbers and SHA-1: numbers are naturals and the hash is any function to 20 bytes; random numbers and database rows are inputs.
- The missing database row: `_HandleLogonChallenge` uses the row without a test, so the model assumes one.
- SQL, logging, configuration, `main`, the reactor and the acceptors.
- The conversion at src/DWCore/AuthServer.cpp:246 is modelled as on a little-endian machine, where it does nothing.
- Message framing after a failed challenge: the header has been consumed, and nothing is claimed about what follows.
- The fields `_os` and `_safelogin`, the build-dependent branches that all do the same, and the reconnect handlers, which only fail.
- BigNumbers.BigNumber: the arrays handed out are values, so writing through the pointer that the source returns is not captured.
- AuthSession.AuthServer: its numbers are values with their kept arrays, so sharing of `BigNumber` objects is not captured.
- ClientLogin.HonestLogin: states the replies when nothing is short; for every other client `ClientLogin.LoginIff` says whether it gets in.
- ClientLogin.LoginIff: is about a modulus of at most 32 bytes, as the source's is, and about proofs after the first challenge of a connection (what a later one is answered with is in `KeptArrays.SecondGreetingIff`); a verifier that the database holds is taken to fit its salt, and a challenge is not cut behind its 34th byte.
- Barrier: a condition wait is an atomic release and a later re-test under the lock; `wait()` is therefore two stretches of code.
- VectorIO: sizes are unbounded, so the saturating conversion of the result to a signed size is not modelled; a handle's replies are a finite list, after which every call fails.
- VectorIO.RecvvN: the form with a timeout is left out; it differs from it as `SendvNTimed` does from `SendvN`.
- MessageBlocks.SendN: the vector passed on is a copy of the collected entries, because its changes are not looked at again; `write_n` and `recv_n` have the same shape and are left out.
- BufferedSockets: claims about the stream after a failed `enqueue_tail`, `enqueue_head` or `schedule_wakeup` stop at the failure itself; `dequeue_head` on a queue that is not empty succeeds; `recv_skip` is used only by `recv`.
- WildMatch.WildMatch: bracket classes, which the caller must ask for with a fourth argument; the model is the function with its default.
- Crc32, CrcCcitt: each table is laid out as 16 rows of 16, and the 16-bit register is the low half of a 32-bit word.
- ByteBuffers: positions are unbounded, so overflow in the bound checks is not modelled; floating-point fields, containers and `appendPackXYZ` are left out; the source's `or` of GUID bytes is an addition of bytes at different places.
- ArrayMaps: construction from a range of elements, which does not test for equal keys; comparison operators.
- ArgvConversion: conversion between encodings is taken to lose nothing, and consumers only reorder the list they were given last.
- ArgShifting: `get_the_parameter` and the tests for options, which look at the text of the current argument.
- ATM classes, asynchronous I/O, `Atomic_Op` and the address classes: they pass calls on to the operating system or hold settings, and keep no invariant of their own; classes whose bodies are in other libraries are not part of this model.
