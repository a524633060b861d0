# Verification of the BGB bridge

The program connects the BGB Game Boy emulator to libmobile, the Mobile Adapter GB library. It is
the slave of BGB's link protocol, keeps the emulator's 31-bit clock, drives the adapter, and lends
it sockets. This project models that behaviour in Dafny and proves what holds of every run of it.

How the model is laid out:

- `Words` has the 32-bit arithmetic and the 31-bit mask. `Bridge` has the state of a running bridge
  as one value (`World`), with a log of everything visible from outside, and one step function for
  each part.
- `MobileGlue` (main.c) and `BgbLink` (bgblink.c) are the program's mutable objects. Their methods
  follow the C code statement by statement and are proved to perform the steps of `Bridge`.
  `Session` is the main loop and `Program` the whole program from the handshake on.
- `Lifecycle`, `ClockRefinement` and `Timers` prove properties of runs, and `WholeRun` puts them
  together from the handshake to the end of the program. `Protocol` tells a whole run event by event
  from what it is given alone, with the numbers of the wire, independently of the step functions.
- `Master` is the driver of test.py, and `TwoParty` puts it and the main program on the two ends of
  a pair of FIFO channels.
- `SlotTable`, `Streams` and `Connect` are the socket code; `Frame`, `DnsName` (with `Utf8`) and
  `HexToken` the codecs.

What the outside world does is always a parameter: packets and the outcome of sends, what the
adapter answers and which timers it latches, what the operating system returns, what the host's
clock says. The theorems quantify over all of it, so the adapter is any machine at all. A packet is
either read whole or the session ends, as in the code. Constants of libmobile (the idle byte, the
number of slots and timers, the length of a token) are parameters too.

Some properties one might expect are false of the code. Each has a concrete input that shows it and
the exact condition under which the code meets it:

- A timer of 1023999 ms can be missed for ever, because the emulator may report its time at intervals
  longer than what is left of the clock's turn (`TimerSkipped`). Shorter timers cannot be missed;
  longer ones never fire at all. (`TimerMissedIff`, `NoTimerSkipped`, `LongTimersNeverFire`)
- The driver of test.py resets the adapter when its masked clock wraps in the middle of a step
  (`WrapResets`): once for each call that falls back by more than 0x100 ticks and less than
  2^31 - 0x1000 from the slave's clock. (`CallResetsIff`, `SessionResetsExactly`)
- A read that offers no room reports the end of a stream that goes on (`NoRoomLooksLikeEnd`), and
  nothing else does. (`EndReportedIff`)
- A check of a connection is not free of effects: it takes away an error that is waiting
  (`ProbeTells`), and exactly then can be told apart from no check at all. (`CheckInvisibleIff`)
- A frame whose length byte has changed can pass its checksum (`LengthUnprotected`), exactly when the
  bytes it makes the reader take for the checksum are one; if nothing follows the frame, only a
  shorter length can do so. (`LengthCorruptionIff`, `OnlyShorterPasses`)
- A frame is not found behind every noise: a stray first magic byte right before it hides it
  (`StrayMagicHides`). It is found exactly behind false starts and idle bytes. (`FrameFoundIff`)
- A DNS name with an empty label or a character outside of ASCII does not survive the round trip
  (`EmptyLabelLost`, `WideNameLost`), and every other name does. (`NameRoundTripIff`)

## Model

| member | source | states |
|---|---|---|
| `BgbLink.BgbState.Handshake` | source/bgblink.c:82-114 | The handshake succeeds exactly when all sends do, the version packet comes back unchanged and a status packet follows; the packets sent are known for each point of failure, and the last one carries the timestamp of the status packet it answers. |
| `BgbLink.BgbState.ObserveTimestamp` | source/bgblink.c:170-192 | The first timestamp sets the clock once; later ones up to 0x100 ticks back change nothing; any other new one is passed on and remembered. Stated by the forward distance alone, where the code measures backwards and may call back twice. |
| `BgbLink.BgbState.Loop` | source/bgblink.c:117-195 | One pass answers, transfers and times at most one packet, in that order, and returns false exactly on a failed read, an unknown command or a failed send, leaving the state as it was; `Protocol.AliveIff` and `Protocol.PassTells` say the same by the numbers. |
| `MobileGlue.MobileUser.LoopTransfer` | source/main.c:206-212 | The byte goes to the adapter, whose answer is returned; the timers it latches meanwhile take the clock as it was before the packet's timestamp. |
| `MobileGlue.MobileUser.LoopTimestamp` | source/main.c:214-228 | The clock takes the new value, and a reset is requested and reported exactly when it advances by more than 0x1000 ticks modulo 2^31. |
| `MobileGlue.MobileUser.LoopTimestampInit` | source/main.c:230-236 | The clock is set and marked as set, and nothing else changes. |
| `MobileGlue.MobileUser.TimeLatch` | source/main.c:50-54 | One timer is latched to the clock and the others are untouched. |
| `MobileGlue.MobileUser.TimeCheckMs` | source/main.c:56-62 | The answer is whether the wrapped distance from the latch has reached the tick count. |
| `MobileGlue.MobileUser.HandleLoop` | source/main.c:174-204 | A requested reset is served first; then actions are fetched if there are none, and processed and fetched again if there are some; timers the adapter latches meanwhile take the clock. |
| `Session.Run` | source/main.c:537-564 | The two loops of the main program, with the callback switched between them, perform the whole-run function over which the theorems are stated, with whatever timers the adapter latches while it handles a byte, is started, or has its round. |
| `Program.RunProgram` | source/main.c:530-564 | Every run of the program: it fails, waits or finishes exactly as the handshake and then the first packet decide; a finished run's log is the greeting and then, event by event, the life that `Protocol.WholeStory` tells; it has a well-formed adapter life, an unbroken byte pipeline, actions served in order, and a clock and timers that are true exactly as `WholeRun.WholeRunKeepsTime` says; any other run has done nothing but send packets of the handshake. |
| `Lifecycle.AdapterLifecycle` | source/main.c:180-187 | Over every whole run: Start and Stop alternate and the last event is Stop; each jump is followed at once by one Stop and one Start, and every Stop but the last follows a jump, so restarts and jumps are equally many; before the first Start there are only packets sent and at most one transferred byte; at the end the two copies of the clock agree and no reset is pending. |
| `Protocol.AwaitExactly` | source/main.c:537-540 | The wait outlasts any number of empty polls and is decided by the first thing received: a broken read, an unknown command or a failed answer makes it fail with nothing changed, and any other packet ends it with the clock at its timestamp, or at zero if it carries none. |
| `Protocol.AliveIff` | source/bgblink.c:123-168 | A pass keeps the session alive exactly if the poll is empty or brings a packet with command 101, 104, 105, 106, 108 or 109 and, for 104 and for 106 with a zero byte, the answer can be sent. |
| `Protocol.ServedIsLasting` | source/main.c:545-547 | The main loop serves exactly the turns before the first that is not of that kind; if all are, all of them. |
| `Protocol.WholeStory` | source/main.c:530-564 | The complete log of every run, in order, from what it is given: the answer 105 with the byte held and 0x80, and then the byte handed over; the echo of a clock packet that asks for it; a restart exactly when the timestamp is more than 0x1000 and less than 2^31 - 0x100 ticks ahead; the questions and the batch processed; Start first and Stop last. |
| `Protocol.PassWithoutCallbacks` | source/bgblink.c:131-192 | Without callbacks the answers are the same, the byte held never changes, and no time is kept. |
| `Protocol.RoundProcesses` | source/main.c:174-204 | A round processes what is held or, failing that, what the adapter answers, less the filtered flag: exactly once, and if and only if it is not empty. |
| `Protocol.EveryTurnProcesses` | source/main.c:189-202 | In every turn that the session lasts, the batch then due is processed in that turn, and no other. |
| `Lifecycle.SerialPipeline` | source/bgblink.c:131-143 | Over every whole run, resets included, the replies sent followed by the byte held back are the initial byte followed by the adapter's outputs. |
| `Lifecycle.ActionsServed` | source/main.c:189-202 | Over every whole run, each batch processed is the filtered, non-empty answer to the latest question and never holds the filtered flag; a question is asked only when nothing is pending, so nothing is lost or processed twice; what is held at the end is the last answer. |
| `ClockRefinement.ObserveExactly` | source/bgblink.c:177-191 | With the two copies of the clock equal, which is preserved, a timestamp is a reset exactly when its forward distance lies strictly between 0x1000 and 2^31 - 0x100, is dropped exactly when it is at least 2^31 - 0x100, and is taken otherwise. |
| `ClockRefinement.PassExactly` | source/bgblink.c:117-195 | The same for a whole pass of the link; packets that carry no timestamp leave the clock alone. |
| `ClockRefinement.InitialRefines` | source/main.c:455-460 | The state with the clock just set and all latches zero stands for an unbounded clock. |
| `ClockRefinement.ClockIsRunningMax` | source/main.c:214-228 | For any unbounded times, each at most 0x100 behind and 0x1000 ahead of the maximum so far, with any other packets, adapter rounds and latches in between: the clock is the running maximum modulo 2^31 after every step, through any number of wraps, and no reset is raised. |
| `ClockRefinement.NoResetIffSteady` | source/bgblink.c:170-192 | A run raises no reset if and only if its timestamps are those of some such unbounded clock. |
| `ClockRefinement.SteadyTimesUnique` | source/bgblink.c:170-192 | That unbounded clock is determined by the timestamps. |
| `ClockRefinement.MainLoopIsRun` | source/main.c:545-547 | Any number of turns of the main loop, with the latches made in them, is such a run. |
| `WholeRun.ServedExactly` | source/main.c:545-547 | The main loop serves a prefix of the turns, all of them or up to the first that the link rejects, and its result is theirs. |
| `WholeRun.AwaitBoots` | source/main.c:537-540 | The wait ends with the clock set, no reset and every latch still zero, or has changed nothing. |
| `WholeRun.WholeRunKeepsTime` | source/main.c:530-564 | From the handshake to the end: the adapter is started once and stopped once, with no restart, if and only if the timestamps the main loop read are those of a steady unbounded clock that begins at the first; and then at the end the clock and every latch are that clock's modulo 2^31, and every timer latched less than a turn ago says truly whether its time is up. |
| `Timers.DoubleQuotientTruncates` | source/main.c:61 | Any correctly rounded double quotient truncates to the integer tick count. |
| `Timers.TimersRefine` | source/main.c:50-62 | Over any run without a reset, a timer answers as a comparison of unbounded elapsed time with its tick count would, as long as less than 2^31 ticks have elapsed. |
| `Timers.LongTimersNeverFire` | source/main.c:56-62 | From 1024000 ms on a timer expires in no state; below that, some clock value makes it expire. |
| `Timers.NoTimerSkipped` | source/main.c:56-62 | A timer below 1023999 ms polled at its latch and after every step: while it has not fired it was not due, it first fires less than 0x1000 ticks late, and it stays expired until a full turn has passed. |
| `Timers.TimerSkipped` | source/main.c:56-62 | At 1023999 ms there is a run without a reset, of every length, that takes time past any bound while no poll fires. |
| `Timers.TimerMissedIff` | source/main.c:56-62 | There is a run in which a timer falls due and no poll fires if and only if it is 1023999 ms or longer. |
| `Master.BGBMaster.ForwardTime` | test.py:130-142 | The loop ends, and sends the pacing packets in order. |
| `Master.PacingExact` | test.py:136-142 | Those are clock packets at every 0x1000 ticks strictly between the two readings, none missing. |
| `Master.BGBMaster.Update` | test.py:144-150 | The pacing is followed by one packet with the new reading. |
| `Master.BGBMaster.AddTime` | test.py:121-125 | The offset is added and the pacing starts from the reading before it. |
| `Master.BGBMaster.StartTransfer` | test.py:152-160 | The pacing is followed by the byte, with the new reading. |
| `Master.ReadingAfter` | test.py:121-134 | After any calls the driver's clock is the host's at the last call plus everything skipped, modulo 2^31. |
| `Master.CallResetsIff` | test.py:130-160 | A call to a slave at most 0x100 ticks ahead of the driver raises a reset exactly when the driver's masked clock falls back to more than 0x100 and less than 2^31 - 0x1000 ticks behind the slave's, and never two; the slave's clock afterwards is given in every case, and is again at most 0x100 ahead. |
| `Master.WrapResets` | test.py:130-150 | An update that takes the driver's clock over its wrap by one second resets the slave. |
| `Master.SessionResetsExactly` | test.py:121-160 | Any sequence of calls whatever, served by a fresh slave: the number of resets is the number of such calls, and the slave's clock is known from the driver's readings alone. |
| `Master.ResetsAreFallBacks` | test.py:121-160 | Without fall-backs of 1 to 0x100 ticks the resets are the calls after the first that fall back by more than 0x100 and less than 2^31 - 0x1000, and the slave ends at the driver's time. |
| `Master.PacedMasterNeverResets` | test.py:121-160 | Any sequence of calls whose masked clock does not decrease, served by a fresh slave: no reset, and the slave's clock ends at the driver's. |
| `TwoParty.TwoPartySafety` | test.py:152-168 | In every interleaving of the driver with the slave's whole main loop, adapter rounds included, over FIFO channels, a byte or its reply is under way exactly while the driver waits, and never two; the adapter has had a prefix of the bytes sent; the first transfer returns the initial byte and each later one the adapter's output for the byte before. |
| `TwoParty.WaitingMoves` | test.py:162-166 | While the driver waits, the byte or its reply is under way, one of the two ends has a packet to take, and every move but an idle round of the slave uses up work. |
| `TwoParty.WaitIsBounded` | test.py:162-168 | However driver and slave interleave, a wait lasts at most 2·(packets for the slave) + (packets for the driver) moves, the slave's idle rounds aside, and is never stuck. |
| `TwoParty.NoResetInAnyInterleaving` | test.py:121-160 | In every interleaving with a driver whose masked clock does not decrease, the slave's clock is the last timestamp it has taken and no reset is raised. |
| `TwoParty.SessionBytes` | test.py:152-160 | The bytes in the packets of any sequence of calls are those asked for, in order. |
| `TwoParty.CallIsMoves` | test.py:121-160 | Whenever the driver does not wait it can make any call, which posts just that call's packets and leaves it waiting exactly if it transfers a byte. |
| `TwoParty.AdapterGetsWhatIsAsked` | test.py:152-168 | In every interleaving in which the packets posted are those of a sequence of calls, the adapter gets the bytes asked for, in order, and all of them once every packet has been taken. |
| `SlotTable.SocketImpl.constructor` | source/socket_impl.c:16-21 | All slots are empty. |
| `SlotTable.SocketImpl.Open` | source/socket_impl.c:63-130 | A slot is filled, and true returned, exactly if every call succeeds; on any failure the new descriptor is closed again and nothing else has changed. |
| `SlotTable.SocketImpl.Close` | source/socket_impl.c:132-137 | The slot is emptied and exactly its descriptor closed. |
| `SlotTable.SocketImpl.Accept` | source/socket_impl.c:183-199 | The listening descriptor is replaced and closed, or nothing changes, or, if the new one cannot be made non-blocking, it stays open without an owner. |
| `SlotTable.SocketImpl.Stop` | source/socket_impl.c:23-30 | Every slot's descriptor is closed once; what remains open is the rest of the program's and the ownerless ones. |
| `SlotTable.DescriptorsOwned` | source/socket_impl.c:63-199 | Over any run of legal operations with any failures, every open descriptor belongs to exactly one slot, to the rest of the program, or to nobody, and those are as many as connections given up after accepting. |
| `SlotTable.SlotsHaveOrigin` | source/socket_impl.c:63-199 | Over any legal run from empty slots, a slot holds a descriptor if and only if an opening in which the descriptor was made non-blocking, configured and bound, or an accepted connection made non-blocking, put it there and nothing has changed the slot since. |
| `SlotTable.SocketImpl.PollSet` | source/main.c:551-558 | The descriptors waited on are the link's and then the occupied slots' in order. |
| `SlotTable.PollSetExact` | source/main.c:551-558 | They are distinct, are exactly the link's and the slots', and fit the array. |
| `Streams.Recv` | source/socket_impl.c:222-284 | The result code, the bytes put in the buffer, the rest of the buffer and what the system keeps, for reads and checks, TCP and UDP, with an error waiting or not and any of the system calls failing. |
| `Streams.CodeExactly` | source/socket_impl.c:222-284 | When each code occurs, by the state of the socket: positive exactly for a read that gets bytes, and then their number; -1 for an error that comes up or a failing look at the type; -2 for an empty result of a stream; never positive for a check; and when a waiting error is cleared. |
| `Streams.CodesAddUp` | source/socket_impl.c:265-283 | Over a whole connection, the non-negative codes of the reads add up to the number of bytes delivered, which are the bytes they returned, in order. |
| `Streams.ConnectionConserved` | source/socket_impl.c:222-284 | Over a whole connection: what was read of a stream is a prefix of what the peer sent, the rest is queued, or dropped by the system, which only a failing connection does; the reads of a UDP slot are its datagrams in the order of arrival, each cut to the room offered for it, and the later ones are queued. |
| `Streams.EndReportedIff` | source/socket_impl.c:251-263 | -2 is returned exactly of a TCP slot when no system call fails and either nothing is left to read, the peer has closed and no error is waiting, or something is left, no error comes first and the read offers no room. |
| `Streams.NoRoomLooksLikeEnd` | source/socket_impl.c:251-263 | Every open stream with bytes waiting returns -2 to a read without room, and a byte to a read of one. |
| `Streams.EndIsFinal` | source/socket_impl.c:251-263 | After -2 from a check or a read with room, everything that the system has not dropped has been delivered, and no later read gets a byte. |
| `Streams.ChecksAreInvisible` | source/socket_impl.c:234-242 | Adding or removing checks anywhere, as long as none of them reports an error, changes neither the result nor the bytes of any read, nor what is left, of a TCP or a UDP slot. |
| `Streams.CheckInvisibleIff` | source/socket_impl.c:234-249 | A check makes no difference to the reads of any run that can follow, if and only if it does not report a waiting error. |
| `Connect.SocketConnect` | source/socket.c:168-211 | The result is the descriptor of the first address that connects, or invalid exactly if there is none; no other descriptor it made is left open, and none is closed that is not open. |
| `Frame.MakeFrame` | test.py:207-213 | The bytes built are the frame. |
| `Frame.FrameLayout` | test.py:207-213 | The parts of a frame byte by byte: magic, command, two zeros, length, payload, at most three zeros to fill whole words in 32-bit mode, and the sum, high byte first. |
| `Frame.AwaitMagic` | test.py:231-240 | The search for the magic bytes, with its count of idle bytes starting over after a false start. |
| `Frame.ReadPack` | test.py:242-253 | Header, payload with padding, and checksum are read and checked. |
| `Frame.ReadFrame` | test.py:231-253 | The two together are the frame decoder. |
| `Frame.FrameRoundTrip` | test.py:207-278 | For every command and payload of at most 255 bytes, in both modes, behind at most 200 bytes other than 0x99 and before anything, the decoder recovers command and payload and consumes the frame exactly. |
| `Frame.FrameFoundIff` | test.py:231-253 | Behind any bytes at all a frame is read back, and consumed exactly, if and only if those bytes are any number of false starts, each after at most 200 idle bytes, and at most 200 more. |
| `Frame.StrayMagicHides` | test.py:231-240 | Right behind a stray 0x99 no frame is read back. |
| `Frame.TooMuchIdle` | test.py:232-238 | With more than 200 such bytes the reader gives up at the 201st. |
| `Frame.ChecksumFits` | test.py:212-213 | The checksum never exceeds 65535. |
| `Frame.CorruptionDetected` | test.py:250-253 | Changing any one byte behind the magic bytes other than the length makes the check fail. |
| `Frame.LengthCorruptionIff` | test.py:242-253 | The verdict on a frame with any value put for its length byte, with anything before and behind it: the reader starves if that length points past the end, and otherwise accepts exactly if the two bytes it points at are the sum of all before them, and then with a payload of that length. |
| `Frame.SamePaddingRefused` | test.py:245-253 | A wrong length with the same padded size is always refused. |
| `Frame.OnlyShorterPasses` | test.py:245-253 | With nothing behind the frame, a wrong length is accepted only if its padded size is shorter. |
| `Frame.LengthUnprotected` | test.py:245-253 | There is a frame and a changed length that passes. |
| `DnsName.MakeName` | test.py:537-544 | The UTF-8 of the labels, each behind the number of its characters, and a terminator; or an error if a label exceeds 255 characters. |
| `DnsName.FitsIff` | test.py:540-541 | That error occurs exactly if the name has 256 characters in a row without a dot. |
| `DnsName.ReadName` | test.py:546-558 | The labels up to the terminator, decoded and joined with dots, and the offset behind it; or an error at the first label that is not UTF-8, or if the message ends first. |
| `DnsName.NameRoundTripIff` | test.py:537-558 | A name written anywhere in any message is read back with the right end if and only if every label is non-empty and ASCII. |
| `DnsName.CutIsMissing` | test.py:546-558 | A message cut off anywhere inside such a name gives no name but the error. |
| `DnsName.WideNameLost` | test.py:537-558 | The name of one letter with an accent is written with length 1 and cannot be decoded. |
| `DnsName.EmptyLabelLost` | test.py:537-558 | Of a name with an empty label, what comes before it is read back. |
| `DnsName.EncodedInjective` | test.py:537-544 | Different names are always written differently, even those that cannot be read back. |
| `Utf8.DecodeEncode` | test.py:542-556 | Text encoded is decoded again. |
| `Utf8.EncodeDecode` | test.py:542-556 | Bytes that can be decoded are the encoding of the result, so the strict decoder accepts nothing but encodings. |
| `Utf8.Samples` | test.py:542 | The encoding of one character of each length. |
| `HexToken.ParseHex` | source/main.c:312-331 | Succeeds exactly when the first 2·size characters are hex digits; the buffer holds the bytes of all complete pairs before the first other character and is otherwise unchanged; no index leaves string or buffer. |
| `HexToken.RelayToken` | source/main.c:399-416 | The option is accepted exactly when it is empty or exactly the token's digits, and then the token is theirs. |
| `HexToken.DigitsExactly` | source/main.c:317-320 | The characters accepted are the sixteen digits in either case and no others, each with its value. |
| `HexToken.SameNumber` | source/main.c:312-331 | The bytes read in base 256 are the digits read in base 16. |
| `HexToken.PrintParse` | source/main.c:312-331 | Bytes printed in either case are parsed back. |

## Left out

- libmobile itself: the adapter is whatever answers the calls logged.
- Option parsing other than the token, the configuration file, titles, telephone numbers, logging, signal set-up and help: user interface and plain input and output.
- The Windows and `select` variants: the model has POSIX semantics.
- `socket_impl_connect`, `socket_impl_listen`, `socket_impl_send` and address conversion: they pass one call through and touch no slot; the peer address filled in by a receive is not modelled.
- The wait on the poll set and its time-out: it changes no state.
- The relay and TCP servers and the cases of test.py: threads over real sockets with nothing promised about their order.
- The interpretation of a decoded reply (test.py:260-278) beyond command and payload, and the acknowledgement bytes exchanged around a frame: dispatch on values already recovered.
- DnsName.MakeName: a name is a sequence of Unicode scalar values; a Python string holding a lone surrogate, on which encoding raises, is not one.
- Datagrams lost before they are queued: a UDP run speaks of those that were.
- TwoParty.TwoPartySafety: sends between the two ends are taken not to fail; `Lifecycle.SerialPipeline` has no such assumption.
- MobileGlue.MobileUser.TimeCheckMs: durations from 2048000 ms on are excluded, because converting their tick count to 32 bits is undefined in C.
