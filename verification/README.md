# Agrobot control logic: a Dafny model

Agrobot is a field robot: a chassis with two driven wheels on a serial Modbus line, an
auger and a planter behind an LS Electric PLC on Modbus TCP, and a dashboard that
drives both. This project models the parts of it that move things or decide what an
operator sees, and proves what they keep over every run:

| module | models |
|---|---|
| Registers, Crc, CrcDivision, Kinematics, Protocol | the chassis link: CRC-16, twist to wheel speeds, frames, register packing |
| PushButtons, Plc, JogSafety, PlcEffects | the PLC client: allow-listed buttons, momentary pulses, one held jog with a deadman, lazy connect |
| HmiLayout, HmiMirror, HmiAgreement | the read-only HMI mirror: chunked block reads, typed members, screen rows |
| Velocity, DeadmanChain, Polling, FixedDrive, DriveLaw | the shared velocity command, the two deadmen, the fixed-distance drive |
| PlantHandshake, Endurance, EnduranceCounts | one auger or planter cycle; the endurance worker with starts and stops around it |
| BatteryFilter, Odometry | the incremental accumulators against the whole history of readings |

**How time and concurrency appear.** A clock reading is a `real` handed to each step. A
region held under a lock is one step; a run is any sequence of such steps, so every
interleaving is covered. The PLC client's two-write operations also expose the memory
between their writes. Objects the program updates in place are classes whose methods
are proved against a step function on values; theorems about runs are lemmas about
those step functions. A bus write has four possible fates: it lands, the PLC answers
with an exception, the transport raises with nothing written, or the write lands and
its reply is lost. Loops that sleep and poll take their world as a function from the
turn number, with clocks at least one period apart; that pace is their termination
measure.

**What the proofs found.** Each is a lemma with a concrete run, beside the exact
condition under which the code does meet the promise:

- A jog write whose reply is lost leaves an axis jogging that the client does not know
  of, so the deadman never clears it (`JogSafety.LostReplyStrandsJog`). A clear that
  the PLC refuses counts as done, so switching axes can leave two axes jogging
  (`JogSafety.RefusedClearJogsTwoAxes`). `JogSafety.StepTracks` gives the exact guard
  per call.
- A press whose release is refused reports success and stays up
  (`JogSafety.RefusedReleaseStays`); `JogSafety.PressEffect` says exactly when.
- A publish that throws while sending the single stop is not repeated: the state is
  idle, the last twist that got out still moves, and only the base node's own deadman
  ends it (`Velocity.LostStopIsNotRepeated`). `Velocity.StepSettles` gives the exact
  guard per event and `Velocity.SettledExactly` the exact condition over a run; every
  other publish failure is harmless.

Three more hold of the functions as written, for inputs that their present callers do
not produce:

- `close()` clears the negative cache, so the call after it may dial a dead PLC at once
  (`JogSafety.CloseForgetsFailure`, exactly by `JogSafety.StepCache`). Nothing in the
  repository calls it.
- A reconnect gap after readings stamped 0 is missed (`Odometry.GapAfterTimeZeroIsMissed`,
  exactly by `Odometry.ForgetsExactly`). The caller's monotonic clock would have to read 0.
- A fixed drive with nothing to cover is `done` even if its deadline has passed before
  the first encoder check (the second half of `FixedDrive.DoneExactly`). Callers ask for
  at least 0.1 m.

Section numbers of the Modbus documents are from MODBUS over Serial Line Specification
V1.02 and MODBUS Application Protocol V1.1b3.

## Model

| member | source | states |
|---|---|---|
| Crc.Crc16 | src/avatar_robot_base/avatar_robot_base/protocol.py:16-22 | the nested byte and bit loops compute the specification register, packed low byte first |
| Crc.RegisterIsLinear | src/avatar_robot_base/avatar_robot_base/protocol.py:18-21 | the register of a bytewise XOR from XORed starting values is the XOR of the two registers |
| Crc.CrcOfXor3 | src/avatar_robot_base/avatar_robot_base/protocol.py:16-22 | crc(a) ^ crc(b) ^ crc(c) is crc(a ^ b ^ c) for equal lengths: the preset cancels in threes |
| Crc.BitStepsInjective | src/avatar_robot_base/avatar_robot_base/protocol.py:20-21 | any number of inner-loop turns loses no information: equal results mean equal registers before |
| Crc.BitRegisterPacks | src/avatar_robot_base/avatar_robot_base/protocol.py:18-21 | up to sixteen line bits fed one at a time act like one addition followed by that many turns |
| Crc.RegisterReadsBits | src/avatar_robot_base/avatar_robot_base/protocol.py:18-21 | the two loops read the data as one bit stream, each byte least significant bit first |
| Crc.LineBitsInjective | src/avatar_robot_base/avatar_robot_base/protocol.py:16-22 | the line bits determine the bytes |
| Crc.RegisterResidue | src/avatar_robot_base/avatar_robot_base/protocol.py:17-22 | from any register, two more bytes bring it to zero exactly when they are its own value, low byte first |
| Crc.CrcResidue | src/avatar_robot_base/avatar_robot_base/protocol.py:16-29 | a frame runs the register to zero if and only if its last two bytes are the CRC of the rest |
| Crc.BurstDetected | src/avatar_robot_base/avatar_robot_base/protocol.py:16-22 | two equal-length strings that differ only within sixteen consecutive line bits have different CRCs, and not both pass as frames |
| Crc.OddErrorsDetected | src/avatar_robot_base/avatar_robot_base/protocol.py:16-22 | an odd number of flipped line bits always changes the CRC, since x + 1 divides the generator |
| Crc.BitStepKeepsParity | src/avatar_robot_base/avatar_robot_base/protocol.py:21 | one turn of the inner loop keeps the parity of the register |
| CrcDivision.CrcIsDivision | src/avatar_robot_base/avatar_robot_base/protocol.py:16-22 | which CRC this is: two bytes are the checksum exactly when data and bytes, as line bits with the first sixteen complemented, are a polynomial multiple of x^16 + x^15 + x^2 + 1 |
| CrcDivision.RegisterDivides | src/avatar_robot_base/avatar_robot_base/protocol.py:18-21 | from zero, the register ends at zero exactly on the multiples of that polynomial, for any sixteen or more bits |
| CrcDivision.PresetComplements | src/avatar_robot_base/avatar_robot_base/protocol.py:17 | starting at all ones is complementing the first sixteen line bits |
| CrcDivision.LineBitsInOrder | src/avatar_robot_base/avatar_robot_base/protocol.py:19-21 | line bit 8 i + k is bit k of byte i: each byte counts low bit first |
| CrcDivision.StandardExample | src/avatar_robot_base/avatar_robot_base/protocol.py:16-22 | the bytes 02 07 carry the checksum 41 12, the example of section 6.2.2 of the serial line specification |
| Kinematics.TwistSymmetries | agrobot_dashboard/domain/kinematics.py:9-21 | both wheels obey the limit; a negated twist negates both, a mirrored turn swaps them, no twist is no motion, a straight one drives both alike |
| Kinematics.TwistReadBack | agrobot_dashboard/domain/kinematics.py:9-21 | a left turn never leaves the left wheel ahead; within the limit the wheels' mean and half difference give the scaled twist back to less than one; beyond it a wheel runs at the limit |
| Kinematics.TruncateNears | agrobot_dashboard/domain/kinematics.py:17-18 | scaling drops less than one and never passes zero |
| Kinematics.WheelsAreNearest | agrobot_dashboard/domain/kinematics.py:17-21 | each wheel is the speed within the limit nearest to what the twist asks: left the truncated linear minus the turn, right their sum |
| Protocol.WriteSpeedFrame | src/avatar_robot_base/avatar_robot_base/protocol.py:25-29 | the frame is header, three signed big-endian fields and the CRC; a speed outside int16 has no frame |
| Protocol.SealedFrameIsOk | src/avatar_robot_base/avatar_robot_base/protocol.py:29 | appending the CRC to any request gives a frame that passes the receiver's check |
| Protocol.SpeedFrameRoundTrip | src/avatar_robot_base/avatar_robot_base/protocol.py:25-29 | the frame has 15 bytes, and a slave following the Modbus request format reads exactly [left, right, 0] at the speed register from it |
| Protocol.SpeedFrameLayout | src/avatar_robot_base/avatar_robot_base/protocol.py:27-29 | the fifteen bytes: 01 10 00 16 00 03 06, both speeds and 0 in two's complement, high byte first, then the checksum of the rest |
| Protocol.DamagedSpeedFrameRefused | src/avatar_robot_base/avatar_robot_base/protocol.py:16-29 | a speed frame hit by a burst of at most sixteen bits, or in an odd number of bits, is refused by that slave |
| Protocol.TwistReachesTheWheels | src/avatar_robot_base/avatar_robot_base/protocol.py:25-29 | with a limit that fits int16 every twist has a frame, and the slave reads its wheel speeds from it |
| Protocol.CountsRoundTrip | src/avatar_robot_base/avatar_robot_base/protocol.py:38-58 | two int32 encoder counts are parsed from a sensor block if and only if its first four registers are their packing |
| Protocol.PairRoundTrip | src/avatar_robot_base/avatar_robot_base/protocol.py:38-42 | sign extension of a register pair gives a count exactly for the pair that packs it |
| Protocol.ParseKeepsRegisters | src/avatar_robot_base/avatar_robot_base/protocol.py:45-58 | two sensor blocks parse alike exactly when they agree but for the upper byte of the oil register |
| Protocol.ParseMeaning | src/avatar_robot_base/avatar_robot_base/protocol.py:45-58 | each value from its own registers: signed 32-bit counts high word first, hundredths of a volt, fault code, low byte of the oil register |
| PushButtons.ResolvedButtons | dashboard/plc_client.py:310-353 | a resolved button is one bit of an allow-listed word; jog buttons raise a jog bit of a jog word, and no other button does |
| PushButtons.BitsFollowLayout | dashboard/plc_client.py:310-324 | the i-th button of a structure resolves to bit i |
| PushButtons.OnlyListedResolve | dashboard/plc_client.py:344-353 | no button resolves that its structure does not list |
| PushButtons.BlocksFollowMemory | dashboard/plc_client.py:326-339 | the blocks' words lie a hundred apart from 5400 on, with their kinds |
| PushButtons.CommandsAreDistinct | dashboard/plc_client.py:273-293 | no two machine commands share a bit, and each is one bit of its word |
| Plc.Device.WriteRegister | dashboard/plc_client.py:1171-1180 | a register write stores the value truncated to 16 bits exactly when it lands or its reply is lost |
| Plc.PlcClient.constructor | dashboard/plc_client.py:1049-1059 | a new client has no socket, no pending retry and no jog |
| Plc.PlcClient.EnsureClient | dashboard/plc_client.py:1072-1105 | lazy connect with the missing-library latch and the negative cache; no other state changes |
| Plc.PlcClient.Drop | dashboard/plc_client.py:1107-1116 | the socket is gone and an immediate reconnect allowed; the held jog stays on record |
| Plc.PlcClient.WriteTo | dashboard/plc_client.py:1171-1180 | below the write area nothing is sent; otherwise success means that the write landed |
| Plc.PlcClient.PulseWord | dashboard/plc_client.py:1182-1188 | value then 0; success if and only if the first write landed and the second did not raise |
| Plc.PlcClient.PressPayload | dashboard/plc_client.py:1310-1318 | only an allow-listed button that is no jog button is pulsed |
| Plc.PlcClient.PressButton | dashboard/plc_client.py:1307-1319 | the whole call as one step of the system; exactly when it answers connected and success |
| Plc.PlcClient.HoldPayload | dashboard/plc_client.py:1327-1341 | start and refresh: another axis' word is cleared first, then the bit is set and the expiry armed |
| Plc.PlcClient.StopPayload | dashboard/plc_client.py:1332-1336 | the word is cleared, and the record dropped only if it is this axis' |
| Plc.PlcClient.JogButton | dashboard/plc_client.py:1321-1342 | the whole call as one step of the system; exactly when it answers connected and success |
| Plc.PlcClient.JogDeadman | dashboard/plc_client.py:1344-1357 | the tick as one step: no bus traffic without a held jog, else the lapsed jog is cleared |
| Plc.PlcClient.ControlWords | dashboard/plc_client.py:1252-1279 | the start words as one step of the system; exactly when it answers connected and success |
| Plc.PlcClient.WriteAmrWord | dashboard/plc_client.py:1557-1598 | arguments that are no integers and words off the handshake list change nothing; otherwise one step of the system, exactly when it answers connected and success, what it reads back, and confirmed if and only if that is what should be there, which a success always is |
| Plc.PlcClient.CloseClient | dashboard/plc_client.py:1618-1620 | the socket is dropped and any pending retry forgotten |
| JogSafety.StepWritesAllowed | dashboard/plc_client.py:273-353 | whatever the bus does, a call changes allow-listed words only, also between its two writes |
| JogSafety.RunWritesAllowed | dashboard/plc_client.py:273-353 | over any run on any bus no word off the allow-list changes, and the held jog is on it |
| JogSafety.HoldEffect | dashboard/plc_client.py:1337-1341 | which axes jog between and after the writes of a hold, for every fate of each write |
| JogSafety.StepTracks | dashboard/plc_client.py:1229-1357 | from a tracked state: at most one axis jogs between the writes, and the client still knows every jog afterwards if and only if none of the named guards held |
| JogSafety.RunTracks | dashboard/plc_client.py:1229-1357 | on a bus where writes land or raise without effect, every raised jog bit is in the word the client holds, after any run |
| JogSafety.JogSafety | dashboard/plc_client.py:1307-1357 | after any such run at most one word holds a jog bit and the client holds that jog, and so does the memory between the two writes of the next call, whatever becomes of that one |
| JogSafety.LostReplyStrandsJog | dashboard/plc_client.py:1339-1341 | a landed start whose reply is lost keeps jogging through every later tick, with nothing on record |
| JogSafety.RefusedClearJogsTwoAxes | dashboard/plc_client.py:1337-1340 | after a refused clear an axis switch leaves two axes jogging |
| JogSafety.ExpiryOutlivesTick | dashboard/plc_client.py:1344-1357 | the held expiry is the last arming plus the deadman time, and while its bit is up no good tick has come after it |
| JogSafety.JogTimeBound | dashboard/plc_client.py:1321-1357 | with good ticks at most a gap apart no jog bit stays up longer than the deadman time plus the gap after it was last armed, whatever else is called and however often a clear is retried |
| JogSafety.RunReleases | dashboard/plc_client.py:1182-1188 | on a fault-free bus, between calls every button word is 0 but the held jog's, which shows its bit or was cleared by a press |
| JogSafety.PressEffect | dashboard/plc_client.py:1182-1188 | a press shows exactly its bit and leaves 0, unless the first reply was lost or the second write did not arrive; nothing else changes |
| JogSafety.RefusedReleaseStays | dashboard/plc_client.py:1182-1188 | a press whose release is refused completes, and its bit stays up through every later tick |
| JogSafety.AmrWriteEffect | dashboard/plc_client.py:1557-1598 | what a plain or momentary handshake write leaves in its word for every fate of its writes: a start request stays latched only if a reply was lost or the second write did not arrive |
| JogSafety.StepCache | dashboard/plc_client.py:1072-1116 | one call keeps the cache (no retry pending on a live socket, the retry exactly a cooldown after a failed attempt) if and only if it is not a close after a failed attempt |
| JogSafety.NegativeCache | dashboard/plc_client.py:1072-1116 | over any run, an attempt after a failed one starts at least a cooldown after its end, unless the client was closed in between |
| JogSafety.LiveHasNoRetry | dashboard/plc_client.py:1072-1116 | over any run, closes included, a live client has no pending retry |
| JogSafety.DeadPlcUntouched | dashboard/plc_client.py:1229-1245 | as long as the PLC cannot be dialled no call of any kind writes a word or touches the held jog |
| JogSafety.CloseForgetsFailure | dashboard/plc_client.py:1618-1620 | with close() in between, two failed attempts can be closer than the cooldown |
| PlcEffects.RunsExactly | dashboard/plc_client.py:1072-1105 | when a payload runs: not answered before the lock, and a socket is there or can be opened now |
| PlcEffects.CompletesExactly | dashboard/plc_client.py:1229-1245 | call by call, when the payload raises: exactly if a write or read that it comes to does |
| PlcEffects.ReconnectsAtOnce | dashboard/plc_client.py:1107-1116 | after an error the next call gets through as soon as the PLC can be dialled |
| PlcEffects.TurnedAway | dashboard/plc_client.py:1307-1342 | unknown buttons and commands, jog buttons pressed, others jogged, foreign words: nothing changes, not even between writes |
| PlcEffects.HoldWords | dashboard/plc_client.py:1337-1341 | a hold word by word for every fate: the axis it leaves is cleared, the new word takes exactly the button's bit, the record is armed for half a second unless something raised |
| PlcEffects.StopWords | dashboard/plc_client.py:1332-1336 | a stop word by word: this axis is cleared, and the record dropped only if it is this axis' and nothing raised |
| PlcEffects.TickExactly | dashboard/plc_client.py:1344-1357 | a tick that finds the jog fresh changes nothing at all; one that finds it lapsed clears its word and, unless that raised, the record |
| PlcEffects.MachineEffect | dashboard/plc_client.py:1281-1292 | a machine command shows exactly its bit and leaves 0, for every fate |
| PlcEffects.RobotEffect | dashboard/plc_client.py:1294-1304 | a robot command likewise in %MW6200 |
| PlcEffects.ControlEffect | dashboard/plc_client.py:1252-1279 | each start word takes 1 or 0 exactly if asked for and its own write arrived; the planter's is not written once the auger's raised |
| PlcEffects.HeldJogStaysUp | dashboard/plc_client.py:1321-1357 | on a clean bus an armed axis stays held with its bit up through any calls with no business ending it, as long as each tick finds the last arming at most half a second old |
| HmiLayout.CountBlockWords | dashboard/plc_client.py:635-641 | the loop computes the largest member end |
| HmiLayout.BlockCovers | dashboard/plc_client.py:635-641 | that span covers every member of the layout |
| HmiLayout.BlockIsTight | dashboard/plc_client.py:635-641 | the span ends where some member ends: no wider than needed |
| HmiLayout.BitSplit | dashboard/plc_client.py:649 | shifting a sum of low bits and a multiple of a power of two picks the bits of either part, also for negative numbers |
| HmiLayout.BitMeaning | dashboard/plc_client.py:649 | the k-th bit of a number is the parity of the number divided by 2^k, rounded down |
| HmiLayout.ShownFlag | dashboard/plc_client.py:1498-1501 | a flag has its one bit at 0 |
| HmiLayout.DecodeIsDirect | dashboard/plc_client.py:628-665 | every covered well-formed member decodes, and to exactly the bytes at its absolute byte address |
| HmiLayout.ShownBitIsDirect | dashboard/plc_client.py:1498-1501 | bit k of a whole-number member, negative ones included, is bit k % 8 of byte k / 8 in the PLC's memory |
| HmiMirror.Bus.ReadWordsRaw | dashboard/plc_client.py:1190-1197 | below the read area no request is sent; otherwise one request, answered with data, with nothing, or by raising |
| HmiMirror.Bus.ReadHmiWords | dashboard/plc_client.py:1428-1439 | the chunk loop against its recursive specification, requests included |
| HmiMirror.ChunksRead | dashboard/plc_client.py:1428-1439 | from any point of the loop: the requests tile the block, each of 1 to 120 registers, and the words so far are the block's |
| HmiMirror.BlockRead | dashboard/plc_client.py:1428-1439 | a block read returns the whole block exactly when every request was answered with data, and stops at the first that was not |
| HmiMirror.ReadValues | dashboard/plc_client.py:1459-1494 | the locked region: values, requests and socket resets of a pass; one reset if and only if the transport failed |
| HmiMirror.ReadHmiScreen | dashboard/plc_client.py:1441-1528 | an unknown screen is answered as such; otherwise the blocks and singles its rows name are read once each, in some order, and every row gets its value, connected or not |
| HmiAgreement.ScreenShows | dashboard/plc_client.py:1461-1494 | on a steady bus the values are exactly those of the blocks and singles asked for, each as its own words say |
| HmiAgreement.OrderDoesNotMatter | dashboard/plc_client.py:1455-1494 | the order in which the sets of blocks and singles are walked does not change any value, with refusals included |
| HmiAgreement.MemberIsMemory | dashboard/plc_client.py:1441-1528 | whatever the bus does and in whatever order blocks are read, a member row is the member at its absolute byte address if its block was answered, and None otherwise |
| HmiAgreement.MirrorIsMemory | dashboard/plc_client.py:1441-1528 | the same with '#' rows: the bit of the byte the row names if the block was answered, and None otherwise |
| HmiAgreement.SingleIsMemory | dashboard/plc_client.py:1478-1492 | a single row is its bit of its word, inverted if the table says so, exactly when its own read was answered, and None otherwise |
| HmiAgreement.NeverWrong | dashboard/plc_client.py:1441-1528 | whatever fails, a row of a block that was asked for shows None or exactly what the PLC's memory holds |
| HmiAgreement.NothingMissing | dashboard/plc_client.py:1464-1477 | with every read answered every block in the readable area is answered, so no covered member is None |
| HmiAgreement.DropEndsReading | dashboard/plc_client.py:1464-1494 | a dropped request is the last one issued, and the pass counts as broken exactly then |
| HmiAgreement.UnreadIsNone | dashboard/plc_client.py:1464-1494 | from the block that met a transport error on, every member and every single shows None and nothing more is read |
| HmiAgreement.UnreadSinglesAreNone | dashboard/plc_client.py:1478-1494 | the same when a single meets the error; member rows keep what they showed |
| Velocity.VelocityState.SetCommand | agrobot_dashboard/services/telemetry.py:114-119 | the command, its time and the active flag are replaced together |
| Velocity.VelocityState.ConsumeForPublish | agrobot_dashboard/services/telemetry.py:121-133 | what a tick hands out and what it leaves: silence when idle, one stop past the timeout, the command otherwise |
| Velocity.VelocityState.RefreshSpeed | dashboard/serve.py:186-192 | the drive loop's locked region: an override is reported and left alone, otherwise speed and time are refreshed |
| Velocity.RunFromEvents | agrobot_dashboard/services/telemetry.py:114-133 | after any run every field follows from the events alone: the last command's values with later refreshed speeds, when they were given, and whether a tick has put the state to sleep |
| Velocity.TickOffers | agrobot_dashboard/services/telemetry.py:121-133 | after any run a tick offers nothing when asleep, the stop past the timeout, otherwise exactly the twist in force, turn included |
| Velocity.CommandIsOffered | agrobot_dashboard/services/telemetry.py:114-133 | the first tick within the timeout after a command offers exactly that command |
| Velocity.IdleAfterStopOffer | agrobot_dashboard/services/telemetry.py:121-133 | whatever fails, the state is idle only before the first offer or right after offering a stop |
| Velocity.IdleMeansStopped | dashboard/serve.py:1149-1167 | without publish failures, idle means that nothing was published yet or the last thing published was a stop |
| Velocity.StepSettles | dashboard/serve.py:1149-1167 | one event from a state that is active, has published nothing or last published a stop keeps it so if and only if it is not a throwing tick that was to send the stop while the last publish still moves |
| Velocity.SettledExactly | dashboard/serve.py:1149-1167 | over any run with any publish failures, that holds if and only if no tick met this guard or a command has been set since |
| Velocity.IdleStaysSilent | agrobot_dashboard/services/telemetry.py:121-133 | idle and not commanded again is silent for good, whatever the drive loop refreshes |
| Velocity.LostStopIsNotRepeated | dashboard/serve.py:1149-1167 | a stop whose publish throws is never repeated |
| Velocity.SingleStopThenSilence | agrobot_dashboard/services/telemetry.py:114-133 | after the last command at most one stop goes out, as the last publish, whichever publishes fail; without failures it has gone out exactly when an active state has become idle |
| Velocity.StopIsCertain | agrobot_dashboard/services/telemetry.py:121-133 | once a tick that publishes meets a zero command or falls past the timeout, that one stop is out and nothing follows it |
| DeadmanChain.RobotBaseNode.SpeedCallback | src/avatar_robot_base/avatar_robot_base/robot_base_node.py:109-113 | a message of two or more values sets both speeds and the command time, a shorter one nothing |
| DeadmanChain.RobotBaseNode.CheckDeadman | src/avatar_robot_base/avatar_robot_base/robot_base_node.py:125-127 | past the command timeout both speeds become 0 |
| DeadmanChain.RobotBaseNode.SpeedFrame | src/avatar_robot_base/avatar_robot_base/robot_base_node.py:134 | the frame written is the speed frame of the node's speeds |
| DeadmanChain.RunIsTraced | src/avatar_robot_base/avatar_robot_base/robot_base_node.py:109-134 | at every stage of any run, what could move a wheel traces back to a command young enough for that stage |
| DeadmanChain.TwoStageDeadman | src/avatar_robot_base/avatar_robot_base/robot_base_node.py:109-134 | in every interleaving a frame that moves a wheel carries the wheel speeds of a command set or refreshed at most dashboard timeout, topic delay and 1.5 s before that cycle's deadman check |
| DeadmanChain.VelIsOrdered | agrobot_dashboard/services/telemetry.py:114-119 | in any run of the chain the shared twist is what the dashboard's events alone put in force |
| DeadmanChain.CommandReachesWheels | src/avatar_robot_base/avatar_robot_base/robot_base_node.py:109-134 | a command whose tick, delivery and node cycle come in time is what the frame carries, left wheel and right wheel |
| FixedDrive.Interfere | agrobot_dashboard/services/telemetry.py:114-133 | what other threads do to the shared velocity during one sleep is the run of their events |
| FixedDrive.DriveDistance | dashboard/serve.py:136-198 | the loop against its specification, the reported metres rounded as the source does; every exit after motion starts ends with a written stop, and a stale encoder commands nothing |
| FixedDrive.PassDistance | dashboard/serve.py:166-198 | only a pass that reaches the target leaves with it covered |
| FixedDrive.LoopEnds | dashboard/serve.py:162-198 | the loop leaves short of the target unless by reaching it, and then it was short one pass before |
| FixedDrive.DoneExactly | dashboard/serve.py:162-198 | done exactly when the loop left on reaching the target, or there was nothing to cover and no time |
| FixedDrive.DoneWithinStride | dashboard/serve.py:136-198 | if no sample advances by more than a stride, a finished drive has covered the target and less than one stride more |
| FixedDrive.DoneReportsRequest | dashboard/serve.py:155-198 | in metres: a finished drive reports the requested distance to half a millimetre, and at most one stride more |
| FixedDrive.RoundsToMilli | dashboard/serve.py:198 | the reported metres are a whole number of thousandths, the nearest one, of two equally near the even one |
| DriveLaw.DriveExactly | dashboard/serve.py:148-198 | the whole drive from its trace: stale encoders write nothing; else the cruise speed first, in the direction asked for, then crawl or cruise for every pass that is in time, not cancelled, short of the target and not overridden; the first other pass ends it for that reason |
| DriveLaw.SpeedsPointTheWay | dashboard/serve.py:148-193 | every speed before the stop is positive on a forward drive and negative on a backward one |
| DriveLaw.DoneIsThere | dashboard/serve.py:179-197 | when done, the last encoder sample is the whole distance away in the direction asked for |
| FixedDrive.LoopPhases | agrobot_dashboard/domain/auto_drive.py:9-16 | on a nondecreasing trace the speeds stay cruise up to a point and crawl from there on |
| FixedDrive.CruiseCrawlStop | dashboard/serve.py:157-195 | the speeds written are cruise, then crawl, then the stop |
| FixedDrive.MirrorRun | agrobot_dashboard/services/telemetry.py:114-133 | reversed commands of the other threads reverse the shared velocity |
| FixedDrive.LoopMirrors | dashboard/serve.py:162-193 | from any point of the loop, the mirrored world gives the same exit and distance and the negated speeds |
| FixedDrive.DirectionSymmetry | dashboard/serve.py:148-198 | a backward drive on negated encoder deltas and overrides has the same outcome and exactly the negated speeds |
| PlantHandshake.RunPlant | dashboard/serve_battery.py:170-220 | one start pulse to the implement's own word if there is a PLC, and the outcome of the wait under the 8 s start limit and the deadline |
| PlantHandshake.DoneComesHome | dashboard/serve_battery.py:199-220 | a wait that ends done met, undisturbed, a poll with the implement home after one with it down |
| PlantHandshake.ComesHomeIsDone | dashboard/serve_battery.py:199-220 | and the converse, from any turn on |
| PlantHandshake.DoneExactly | dashboard/serve_battery.py:170-220 | done if and only if, before any cancel, disconnect, start timeout or deadline, one poll shows the implement down and a later one shows it home |
| PlantHandshake.RestingNeverDone | dashboard/serve_battery.py:178-181 | the resting value alone never completes a cycle |
| PlantHandshake.WaitExactly | dashboard/serve_battery.py:195-220 | every outcome exactly: done, cancelled, skipped on a lost connection, timed out at the deadline or at the start limit, if and only if some turn ends the wait so and none before it ended it |
| Endurance.BatteryTest.MayStart | dashboard/serve_battery.py:98-101 | the first locked region of start() goes on exactly if no run is on, and changes nothing |
| Endurance.BatteryTest.Begin | dashboard/serve_battery.py:107-125 | a run begins only if none is on, with every counter and the cancel flag reset and the chosen speed, cutoff and timeout taken over |
| Endurance.BatteryTest.ClearPlc | dashboard/serve_battery.py:159-168 | both start words are stopped through the client, auger first; without a PLC nothing happens |
| Endurance.BatteryTest.Stop | dashboard/serve_battery.py:127-135 | the cancel flag goes up and the state idles, counters stay, a zero velocity is commanded and both start words are stopped |
| Endurance.BatteryTest.EnterPhase | dashboard/serve_battery.py:246-250 | only the phase changes |
| Endurance.BatteryTest.CountLeg | dashboard/serve_battery.py:261-283 | a completed leg counts once, and the backward one closes a cycle |
| Endurance.BatteryTest.CountPlant | dashboard/serve_battery.py:234-241 | a finished step counts for its implement, a timeout as such, others not at all |
| Endurance.BatteryTest.Finish | dashboard/serve_battery.py:288-295 | the worker's end idles the state and touches neither counters nor the cancel flag, after a zero velocity and stopped start words |
| Endurance.ReleasedWords | dashboard/serve_battery.py:159-168 | each start word is 0 afterwards exactly when the client was reached and its own write arrived, whatever became of the other; no other word changes |
| Endurance.StepOnTrack | dashboard/serve_battery.py:222-295 | a worker step keeps the log on the cycle, the position in step with it, and standstill outside a drive |
| Endurance.StepAccounted | dashboard/serve_battery.py:222-295 | a worker step keeps the counters equal to what its log accounts for |
| Endurance.AlwaysSound | dashboard/serve_battery.py:96-295 | both, and the one-worker invariant, after any interleaving of starts, stops and worker steps |
| Endurance.OneWorkerAlive | dashboard/serve_battery.py:96-125 | at most one worker is alive, only it steps, a start that has joined finds nothing running, and no step alters another worker's record |
| Endurance.EnduranceCycle | dashboard/serve_battery.py:222-295 | every worker did a prefix of forward, auger, planter, backward, auger, planter, repeated; its start pulses went out at standstill; cycles equal backward legs; each ended plant step is counted once |
| Endurance.PulsesWhileStationary | dashboard/serve_battery.py:149-157 | with the PLC present and its writes landing, each start pulse went out with %MW5112 last written as Stationary |
| Endurance.StopIsFinal | dashboard/serve_battery.py:127-139 | after a stop and short of a new start, a run begins at most the one activity it was already past the gate of, and the cancel flag stays up |
| Endurance.StopEndsRun | dashboard/serve_battery.py:127-139 | the worker a stop hit is dead after at most eight more steps of its own, however other events interleave |
| EnduranceCounts.CountersExactly | dashboard/serve_battery.py:234-283 | after any interleaving each counter is the number of activities that ended its way: augers and planters done, plant steps timed out, legs covered each way past their cancel check, ends in log order |
| EnduranceCounts.RunningExactly | dashboard/serve_battery.py:96-135 | the test says that it runs exactly while a worker is alive and not stopped, then shows what that worker last began, and is idle when none is alive |
| EnduranceCounts.StartHires | dashboard/serve_battery.py:106-125 | a start that finds no worker alive hires one, with every counter at 0 |
| EnduranceCounts.WholeRound | dashboard/serve_battery.py:222-295 | with all going well forty steps make one round: six activities, four pulses at standstill with the PLC told so, one leg each way, one cycle, two of each implement |
| EnduranceCounts.GoesOn | dashboard/serve_battery.py:256-287 | a worker goes on unless it is cancelled, the battery is empty, its leg failed or its wait was cancelled |
| EnduranceCounts.FailedLegEndsRun | dashboard/serve_battery.py:261-277 | a leg with stale encoders or an aborted drive is the last |
| EnduranceCounts.EmptyBatteryEndsRun | dashboard/serve_battery.py:256-287 | once every answer to a worker says empty it is dead after at most ten more steps of its own |
| BatteryFilter.MedianVoltageFilter.Add | agrobot_dashboard/domain/battery.py:33-45 | one reading as one step of the filter |
| BatteryFilter.WindowIsHistory | agrobot_dashboard/domain/battery.py:35-39 | for nondecreasing times the incrementally pruned window is the whole history of positive readings, cut off once |
| BatteryFilter.SmoothedInRange | agrobot_dashboard/domain/battery.py:40-45 | the displayed value is 0 or strictly inside the valid range |
| BatteryFilter.RecomputesAreSpaced | agrobot_dashboard/domain/battery.py:40-45 | recomputes are at least recompute_s apart, the first at least that after time 0 |
| BatteryFilter.SortSorts | agrobot_dashboard/domain/battery.py:41 | sorting orders the values and keeps exactly them |
| BatteryFilter.MedianIsMiddle | agrobot_dashboard/domain/battery.py:44 | the median is the upper middle value of any ascending arrangement |
| BatteryFilter.RecomputesWhenDue | agrobot_dashboard/domain/battery.py:40-45 | when due and with any in-range reading in the window the value becomes that median as of now; otherwise it stays |
| BatteryFilter.MedianBetweenGood | agrobot_dashboard/domain/battery.py:44 | if strictly fewer than half of the values are bad, the middle one lies between the good ones |
| BatteryFilter.CorruptMinorityIsHarmless | agrobot_dashboard/domain/battery.py:40-45 | so does a recomputed display value, whatever marks a reading as corrupt |
| Odometry.OdometryAccumulator.Update | agrobot_dashboard/domain/odometry.py:37-52 | one encoder reading as one step of the accumulator |
| Odometry.LastRestart | agrobot_dashboard/domain/odometry.py:39-42 | the last reading that a gap precedes, with none after it |
| Odometry.MileageIsPathSinceRestart | agrobot_dashboard/domain/odometry.py:37-52 | the mileage is the sum of the centre's absolute movements over the accepted steps since the last reconnect |
| Odometry.PathIsBounded | agrobot_dashboard/domain/odometry.py:46-47 | that sum is at most max_delta for each accepted step |
| Odometry.MileageBounds | agrobot_dashboard/domain/odometry.py:37-52 | with no step rejected the mileage is at least the net movement of the centre, and equal to it exactly when the centre never turned back |
| Odometry.ForgetsExactly | agrobot_dashboard/domain/odometry.py:39-47 | one more reading gives the state of a fresh accumulator exactly when the code sees a gap or there was no mileage to forget |
| Odometry.ReconnectForgets | agrobot_dashboard/domain/odometry.py:39-42 | after a gap the state is that of a fresh accumulator run on the later readings alone |
| Odometry.GapAfterTimeZeroIsMissed | agrobot_dashboard/domain/odometry.py:39 | a gap after readings stamped 0 keeps the old mileage and adds the jump in the counts |

## Left out

- Plc.Step: the payloads of `machine_command` and `control_robot` are part of the step function and of every run, but have no method of their own; they add no branching to the ones written out.
- Plc.Midway: the sleep between two writes is not timed, and a call's payload reads the clock once.
- Plc.PlcClient.WriteAmrWord: the memory holds what the client wrote; the PLC's own program changing a word between the write and the readback is not modelled.
- JogSafety.RunTracks: is stated for writes that land or raise without effect; `JogSafety.StepTracks` covers the other fates call by call.
- JogSafety.RunReleases: assumes writes that land; between the writes of a press its word shows the bit, as `JogSafety.PressEffect` says.
- HmiAgreement.RowValue: a bit of a `real` member shows as None, because 32-bit reals are kept as bit patterns; rounding to three places and formatting with decimals and units are not modelled.
- HmiMirror.ReadHmiScreen: panels are lists of parsed row references; expanding screen definitions into rows, parsing `byte.bit` and row references from strings, labels, units and menus are not modelled.
- DeadmanChain.TwoStageDeadman: `time.time` and `time.monotonic` are one clock, callbacks are atomic, and the topic's longest delay is a parameter.
- DeadmanChain.RobotBaseNode: opening, self-healing and acknowledging on the serial port, and publishing the sensor block, are not modelled.
- FixedDrive.DriveDistance: distances and their rounding to millimetres are over exact reals, and the encoder counters do not wrap during a drive.
- Kinematics.TwistReadBack: real arithmetic stands for floating point, so NaN and infinite twists are left out.
- Registers.Pair: `(hi << 16) | lo` is written as a sum, which it equals for two registers.
- PlantHandshake.RunPlant: status polls answer or disconnect; the PLC side is a sequence of poll results.
- Endurance.Step: the worker's thread is a program counter over its locked regions rather than one method with a loop, so that starts, stops and worker steps can interleave freely; the locked regions themselves are the methods of `BatteryTest`.
- Velocity.Next: the 20 Hz publish loop and the node's serial loop appear as one event per turn in the runs, not as endless loops; their turns may come at any times in order.
- Endurance.OneWorkerAlive: starts are serialised and a join completes; overlapping starts and a join that times out after three seconds are outside it.
- EnduranceCounts.EmptyBatteryEndsRun: whether the battery is empty is an answer of the outside world; the freshness test and the cutoff behind it are not modelled.
- Endurance.PulsesWhileStationary: records the worker's own writes to %MW5112; the background writer of that word is not modelled.
- Endurance.EnduranceCycle: an exception inside the worker's body would go straight to its cleanup and is not modelled; the drive and the handshake appear by their outcomes, which FixedDrive and PlantHandshake model.
- BatteryFilter.WindowIsHistory: is stated for nondecreasing times, as the source's clock gives them.
- Odometry.MileageBounds: halves of counts are exact reals; the sign extension of domain/odometry.py is the same function as in the chassis link and is proved there.
- Cameras, detection, recording, uploads, web pages, HTTP routing and launch scripts: hardware, libraries and plumbing.
- GNSS parsing and the trigonometry of odom_calculation.py: floating-point formulas with easy properties only.
- pymodbus, pyserial and rclpy: replaced by a bus or topic with the outcomes described above.
