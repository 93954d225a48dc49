# AeroBench-SITL: a verified model

This project models the flight stack's stateful core in Dafny and proves what it is for: that
frames survive a noisy line and damaged ones do not, that the black box keeps the newest records,
that the flight state machine never takes a forbidden path and never flies with a known sensor
fault, that two tasks sharing flags and a queue do what each expects, that injected faults end on
time, and that commands are assembled alike however the socket cuts them up.

Code that updates state is a class or a method over an array, proved against a function on values;
the properties over whole runs are proved of those functions.

| file | models |
|---|---|
| `Bytes.dfy`, `LittleEndian.dfy`, `SensorData.dfy` | bytes, little-endian integers, the sensor record |
| `Gf2.dfy`, `Crc.dfy`, `Period.dfy` | polynomial arithmetic over bits; the 16-bit check and its period (generator x^16+x^12+x^5+1 of ITU-T Recommendation V.41, section 2; preset of ones, unreflected, no final xor) |
| `Wire.dfy`, `Decoder.dfy`, `Link.dfy` | printing a frame, the receive machine, and the two together over noisy streams |
| `SensorCodec.dfy` | packing and unpacking the sensor record on both sides |
| `Blackbox.dfy`, `BlackboxRuns.dfy`, `TransitionLog.dfy` | the record ring, all its runs, and what it retains of the state machine |
| `FlightFsm.dfy`, `FsmRuns.dfy` | the flight state machine, and all its runs |
| `FsmTask.dfy`, `FsmTaskRuns.dfy` | the flight task, the event flags it shares with the health task, and all interleavings |
| `Mailbox.dfy`, `SensorTask.dfy` | the sensor queue step by step, and the handling of one frame |
| `Imu.dfy`, `Battery.dfy`, `FaultInjector.dfy`, `FaultRuns.dfy` | the simulated sensors, the fault slots, and all their runs |
| `LineAssembler.dfy` | the command line buffer |

Time, sensor readings, random draws, received bytes, read results and the order in which tasks run
are inputs, and every statement is for all of them. Integers wrap where the source's do: the
16-bit check and sequence number, the 32-bit clock and counters. Floats are bit patterns where
they are serialised and real numbers where they are compared or computed with.

## Where the code differs from its own documentation

The model follows the code in each case.

- The sensor layout adds up to 72 bytes, not the 73 that both sides declare
  (Firmware/Core/Src/protocol.c:115-125). As written the simulator's builder returns 0 for every
  record and the unpacker refuses what the packer returns (`SensorCodec.AsWritten`). The members
  of `SensorCodec` take the declared size as a parameter, so the same contracts also describe the
  constant corrected to 72.
- `proto_rx_feed` promises the accepted frame in its context (Firmware/Core/Inc/protocol.h:159-160)
  but zeroes it before returning true. `RxContext.Feed` gives the frame as a ghost result, and says
  that the context still holds it exactly when it has type 0 and no payload. Handed to the sensor task as the code does it, the zeroed frame has type 0 and is ignored.
- `blackbox_read` finds nothing in a ring that is exactly full without having overwritten. The
  queue theorem is proved of the code and, by a flag, of the test corrected to "count is positive".
- `blackbox_rewind` does not restore the count and trusts a sequence number that wraps. When it
  finds the oldest record, and when a full replay follows, are if-and-only-if theorems over all runs.
- The arming guard is never called. `FsmTaskRuns.ArmRespectsGuardIff` says exactly when arming
  respects it all the same: the flight task's own faults stand in for all of it but the 11 V.
- A fault that appears is logged as FAULT_SET exactly when the raised flags outrank those dropped
  in the same cycle (`FsmTaskRuns.LoggedAsSetIff`).
- Clearing all faults thaws the sensors at once, so a freeze does not survive it
  (`FaultRuns.FreezeHoldsIff`).
- Faults raised by the health task never reach the state machine, and the flight task's own
  synchronisation clears them within one cycle.
- A read issued with 255 bytes pending asks for 0 bytes, so an overlong line closes the connection.

## Model

| member | source | states |
|---|---|---|
| Gf2.FeedLinear | Firmware/Core/Src/protocol.c:13-19 | the register fed with the xor of two inputs from the xor of two presets is the xor of the two registers |
| Gf2.TimesXInjective | Firmware/Core/Src/protocol.c:15-18 | the one-bit shift-and-xor step loses no information: equal results come from equal registers |
| Gf2.FeedAhead | Firmware/Core/Src/protocol.c:13-19 | injecting up to 16 bits at once and then shifting gives the register that bit-by-bit feeding gives, which is why the byte loop is a bit-serial division |
| Gf2.FeedIsRemainder | Firmware/Core/Src/protocol.c:9-22 | bit-serial feeding equals schoolbook long division: the remainder of message·x^16 with the preset added to its first 16 coefficients, modulo x^16+x^12+x^5+1 |
| Gf2.FeedParity | Firmware/Core/Src/protocol.c:13-19 | the number of ones in the register has the parity of preset and input together |
| Gf2.BurstLeavesTrace | Firmware/Core/Src/protocol.c:13-19 | a nonzero difference confined to 16 consecutive bits never leaves the zero register, wherever it starts and whatever follows |
| Crc.Crc16 | Firmware/Core/Src/protocol.c:9-22 | both loops together leave in the register the check of exactly the given slice of the buffer |
| Crc.CheckValue | Firmware/Core/Src/protocol.c:9-22 | the check of the nine ASCII digits from 1 to 9 is 0x29B1 |
| Crc.ShiftBits | Firmware/Core/Src/protocol.c:15-18 | the machine-word step on 16 bits, with its test of 0x8000 and its xor with 0x1021, is multiplication by x in the polynomial field |
| Crc.RegisterBits | Firmware/Core/Src/protocol.c:12-20 | the two nested loops over bytes are the bit-serial division of the bytes read most significant bit first |
| Crc.CrcIsRemainder | Firmware/Core/Src/protocol.c:9-22 | the checksum of any data is the remainder of the polynomial division with preset of all ones, unreflected, no final xor |
| Crc.CrcDifference | Firmware/Core/Src/protocol.c:9-22 | the xor of two checks of equally long data depends only on the xor of the data |
| Crc.BurstDetected | Firmware/Core/Src/protocol.c:9-22 | equally long bodies that differ, only within some window of 16 consecutive bits at any bit offset, have different checks; for every length |
| Crc.CrcParity | Firmware/Core/Src/protocol.c:9-22 | the parity of the check is the parity of the data |
| Crc.OddBitsDetected | Firmware/Core/Src/protocol.c:9-22 | an odd number of flipped bits changes the check |
| Crc.SameCheckIff | Firmware/Core/Src/protocol.c:9-22 | equally long data have the same check if and only if the generator divides their difference |
| Period.SquareOfPower | Firmware/Core/Src/protocol.c:15-18 | the square of the n-th power of x is the 2n-th, squaring being computed place by place |
| Period.OrderOfX | Firmware/Core/Src/protocol.c:15-18 | the n-th power of x is one if and only if 32767 divides n: the register, left to shift, has that period |
| Period.TwoBitsUndetectedIff | Firmware/Core/Src/protocol.c:9-22 | two flipped bits leave the check unchanged if and only if their distance is a multiple of 32767; for every length |
| Period.FewBitsDetected | Firmware/Core/Src/protocol.c:9-22 | one, two or three flipped bits, wherever they are, change the check of data up to 4095 bytes |
| Crc.WordIsTwoBytes | Firmware/Core/Src/protocol.c:49-50 | the 16 bits of the check are those of the two bytes sent |
| Crc.BitsDetermine | Firmware/Core/Src/protocol.c:12-13 | the bit string determines the bytes it came from |
| Wire.BuildFrame | Firmware/Core/Src/protocol.c:29-53 | writes the encoding of the frame at the front of the buffer, or nothing and 0 exactly when it does not fit; every other byte is untouched |
| Wire.CorruptCrc | Simulator/packet_serializer.c:105-111 | complements the last two bytes and nothing else; shorter buffers are left alone |
| Wire.PrintedInNumbers | Firmware/Core/Src/protocol.c:38-50 | a frame is 0xAB, the type, the length low byte first, the payload, and the check of everything between, low byte first |
| Wire.CorruptionIsComplete | Simulator/packet_serializer.c:105-111 | corruption inverts every check bit, changes nothing else, and undoes itself |
| Bytes.LengthRoundTrip | Firmware/Core/Src/protocol.c:41-42 | the two length bytes give back the length |
| Bytes.JoinRoundTrip | Firmware/Core/Src/protocol.c:49-50 | the two check bytes give back the check |
| Decoder.StepProgress | Firmware/Core/Src/protocol.c:253-315 | every byte keeps index below length below or at 128, and outside the search for a start byte it lowers a measure that is at most 133 |
| Decoder.RxContext.constructor | Firmware/Core/Src/protocol.c:238-242 | a fresh context is the start state with an empty stream |
| Decoder.RxContext.Reset | Firmware/Core/Src/protocol.c:238-242 | a reset zeroes everything and starts a new stream |
| Decoder.RxContext.TakeLengthHigh | Firmware/Core/Src/protocol.c:263-274 | the three outcomes of a complete length field: no payload, oversized, payload |
| Decoder.RxContext.TakePayloadByte | Firmware/Core/Src/protocol.c:276-280 | stores one payload byte and notices the last |
| Decoder.RxContext.TakeCheckHigh | Firmware/Core/Src/protocol.c:287-310 | accepts exactly when the received check equals the one recomputed over a copy of the header and payload, and zeroes the context either way |
| Decoder.RxContext.Feed | Firmware/Core/Src/protocol.c:244-318 | one byte is one step of the automaton; the reports since reset are those of the batch parser on all bytes fed; when it returns true the frame it had assembled is already erased, so the context still holds the accepted frame if and only if that has type 0 and no payload |
| Decoder.RunAppend | Firmware/Core/Src/protocol.c:244-318 | feeding a stream in two parts is feeding it whole |
| Decoder.ByteMachineIsBatchParser | Firmware/Core/Src/protocol.c:244-318 | over any byte stream the byte-at-a-time machine reports, at every position, exactly what a batch parser reports that cuts whole frames off the front |
| Decoder.NoiseDrains | Firmware/Core/Src/protocol.c:253-315 | as many non-start bytes as the measure says bring any reachable state back to the search |
| Decoder.DrainBoundIsTight | Firmware/Core/Src/protocol.c:253-280 | 132 such bytes do not always suffice |
| Link.PrintedIsReceived | Firmware/Core/Src/protocol.c:29-53 | every printed frame with at most 128 payload bytes is well framed and is accepted with its type and payload |
| Link.ReceivedWasPrinted | Firmware/Core/Src/protocol.c:287-310 | whatever is accepted is, byte for byte, the printing of the frame reported |
| Link.PrintedParity | Firmware/Core/Src/protocol.c:47-50 | a printed frame has an odd number of ones, all of its bits together |
| Link.OddFlipsRejected | Firmware/Core/Src/protocol.c:287-310 | flipping any odd number of bits of type, payload and check of a printed frame makes the decoder reject it |
| Link.BurstRejected | Firmware/Core/Src/protocol.c:287-310 | a burst of at most 16 bits in type and payload makes the decoder reject the frame |
| Link.FewFlipsRejected | Firmware/Core/Src/protocol.c:287-310 | one, two or three flipped bits in type and payload, however far apart, make the decoder reject the frame |
| Link.CheckChangedRejected | Firmware/Core/Src/protocol.c:287-310 | any change confined to the check bytes makes the decoder reject the frame |
| Link.CorruptionIsDamage | Simulator/packet_serializer.c:105-111 | the simulator's corruption is such a change |
| Link.NoisyRoundTrip | Firmware/Core/Src/protocol.c:29-53 | for any list of printed frames, each preceded by any run of non-start bytes and each possibly damaged (an odd number of flips, a 16-bit burst, up to three flips, or the check alone), the machine reports the undamaged frames, in order, with type and payload, and nothing else |
| Link.ReportedIsOnTheWire | Firmware/Core/Src/protocol.c:244-318 | on an arbitrary stream, every report ends at the last byte of a verbatim printing of the reported frame |
| Link.OversizedSkipped | Firmware/Core/Src/protocol.c:267-269 | a header announcing more than 128 bytes costs its own four bytes: a frame right behind it is reported |
| Link.PrintedRuns | Firmware/Core/Src/protocol.c:29-53 | a printed frame fed from the start state is reported at its last byte only, and leaves the start state |
| Link.PrintedIsHeld | Firmware/Core/Src/protocol.c:253-285 | before the last byte of a printed frame the machine holds its type and payload |
| Link.Resynchronises | Firmware/Core/Src/protocol.c:253-315 | from any reachable state, 133 or more non-start bytes followed by a printed frame lead to that frame being reported at its last byte |
| LittleEndian.Le32RoundTrip | Firmware/Core/Src/protocol.c:62-107 | a 32-bit word survives being put and got |
| LittleEndian.Le32Inverse | Firmware/Core/Src/protocol.c:62-107 | four bytes survive being got and put |
| LittleEndian.Le64RoundTrip | Firmware/Core/Src/protocol.c:72-105 | a 64-bit word survives the byte loop in both directions |
| LittleEndian.Le64Inverse | Firmware/Core/Src/protocol.c:72-105 | eight bytes survive the byte loop in both directions |
| LittleEndian.ByteOrder | Firmware/Core/Src/protocol.c:62-107 | the least significant byte comes first, in four- and eight-byte words |
| SensorCodec.PutF64 | Firmware/Core/Src/protocol.c:72-77 | the loop writes the eight little-endian bytes of the word and nothing else |
| SensorCodec.GetF64 | Firmware/Core/Src/protocol.c:99-105 | the loop reads the word whose little-endian bytes are there |
| SensorCodec.PutRecord | Simulator/packet_serializer.c:73-91 | the nineteen pointer-advancing writes leave exactly the 72 packed bytes, in the same order on both sides |
| SensorCodec.PackSensor | Firmware/Core/Src/protocol.c:127-153 | 0 exactly when the buffer is shorter than the declared size, else 72 packed bytes at the front and nothing else changed |
| SensorCodec.UnpackSensor | Firmware/Core/Src/protocol.c:155-181 | fails exactly below the declared size; otherwise the record whose packing those bytes are |
| SensorCodec.BuildSensorFrame | Simulator/packet_serializer.c:59-103 | prints the whole frame if the declared size is 72; otherwise writes header and payload and returns 0 |
| SensorCodec.UnpackPack | Firmware/Core/Src/protocol.c:127-181 | unpacking the packed bytes gives back all nineteen fields |
| SensorCodec.PackUnpack | Firmware/Core/Src/protocol.c:127-181 | packing what was unpacked gives back the 72 bytes |
| SensorCodec.PackInjective | Firmware/Core/Src/protocol.c:127-153 | the packed bytes determine the record |
| SensorCodec.Layout | Firmware/Core/Src/protocol.c:115-124 | the offset of each of the nineteen fields in the 72 bytes |
| SensorCodec.PackThenUnpack | Firmware/Core/Src/protocol.c:125-181 | pack then unpack with one declared size restores the record exactly when the length passed is at least that size |
| SensorCodec.AsWritten | Firmware/Core/Src/protocol.c:125-157 | with the size declared as 73, the builder returns 0 its header says 73, and the unpacker refuses the packed 72 bytes, for every record |
| SensorCodec.EndToEnd | Firmware/Core/Src/protocol.c:115-181 | with the size corrected to 72, the sent frame is reported at its last byte and unpacks to the record sent |
| SensorCodec.Deliver | Firmware/Core/Src/protocol.c:155-318 | the same on the mutable state: build, feed byte by byte, take the payload before the last byte, see success, unpack the record sent |
| Blackbox.Blackbox.constructor | Firmware/Core/Src/blackbox.c:13-17 | an empty ring |
| Blackbox.Blackbox.Append | Firmware/Core/Src/blackbox.c:19-59 | one record logged: slot, cursors, count, 16-bit sequence, overflow and message, all of the new state; the message kept is the first 31 characters, or empty if there is none |
| TransitionLog.MessageKept | Firmware/Core/Src/blackbox.c:44-45 | every transition message is kept whole |
| TransitionLog.TransitionInRing | Firmware/Core/Src/blackbox.c:19-56 | whatever else is logged, read and rewound, a transition of any run of the state machine whose record is among the last 512 is in the slot of its number, with its state code and whole message |
| TransitionLog.TellsOne | Firmware/Core/Src/flight_fsm.c:55-59 | such a record tells of one transition only |
| Blackbox.Blackbox.Take | Firmware/Core/Src/blackbox.c:61-77 | one read under the availability test as written, with the whole new state |
| Blackbox.Blackbox.Peek | Firmware/Core/Src/blackbox.c:79-84 | the slot at an index, or nothing outside the ring |
| Blackbox.Blackbox.RewindCursor | Firmware/Core/Src/blackbox.c:91-102 | moves the read cursor only |
| BlackboxRuns.RunHoldsHistory | Firmware/Core/Src/blackbox.c:42-56 | in every run, with any reads, rewinds and sequence wraps, the write cursor is the total modulo 512, the sequence is the total modulo 65536, and each slot holds the newest record whose number is congruent to it |
| BlackboxRuns.EmptyInNumbers | Firmware/Core/Src/blackbox.c:13-17 | a ring nothing was logged to is 512 zeroed records, cursors at 0 |
| BlackboxRuns.RetainedInRing | Firmware/Core/Src/blackbox.c:96-99 | reading forward from the oldest slot meets the last 512 records, or all of them, in logging order |
| BlackboxRuns.RewindFindsOldest | Firmware/Core/Src/blackbox.c:96-99 | rewind points at the oldest retained record if and only if fewer than 512 were logged, or the sequence number reads 512 or more, or the write cursor is at slot 0 |
| BlackboxRuns.RewindBeforeWrap | Firmware/Core/Src/blackbox.c:96-99 | in particular whenever fewer than 65536 records have been logged |
| BlackboxRuns.RewindAfterWrap | Firmware/Core/Src/blackbox.c:96-99 | after 65537 records the rewound cursor is on the newest record and not on the oldest |
| BlackboxRuns.LogAppends | Firmware/Core/Src/blackbox.c:47-56 | logging appends to the unread records and drops the oldest when the ring is full |
| BlackboxRuns.TakeRemovesOldest | Firmware/Core/Src/blackbox.c:68-72 | a successful read removes the oldest unread record and nothing else |
| BlackboxRuns.AvailableIff | Firmware/Core/Src/blackbox.c:65-66 | the availability test refuses exactly an empty ring and a full one that has lost nothing |
| BlackboxRuns.FullRingReadsNothing | Firmware/Core/Src/blackbox.c:65-66 | the first 512 records reach such a full ring, and reading it finds nothing |
| BlackboxRuns.ReadsAreRecent | Firmware/Core/Src/blackbox.c:61-102 | in every run with any rewinds, a read that delivers something delivers one of the last 512 records logged, never a blank or stale slot |
| BlackboxRuns.RewindReplaysIff | Firmware/Core/Src/blackbox.c:91-102 | in every run with any rewinds, reads after a rewind deliver exactly the retained log if and only if the cursor is on the oldest slot and as many reads succeed as records are retained |
| BlackboxRuns.ReplayFails | Firmware/Core/Src/blackbox.c:91-102 | one record logged and read leaves nothing to replay |
| BlackboxRuns.RingRefinesQueue | Firmware/Core/Src/blackbox.c:19-77 | over every run of logging and reading the ring is a drop-oldest queue: same unread records, same deliveries, and logged = delivered + overwritten + held; with the test corrected the queue is never blocked while it holds something |
| BlackboxRuns.UnreadAreYoungest | Firmware/Core/Src/blackbox.c:47-56 | the unread records are the youngest ones logged, in logging order |
| BlackboxRuns.DrainIs | Firmware/Core/Src/blackbox.c:61-77 | how many records repeated reads deliver from any state, and which |
| BlackboxRuns.FullReplayIff | Firmware/Core/Src/blackbox.c:91-102 | a rewind makes the whole retained log readable if and only if nothing retained has been read, the ring is not full with nothing lost, and the cursor is not misled by the sequence wrap |
| BlackboxRuns.FullReplayOnlyIfNoOp | Firmware/Core/Src/blackbox.c:91-102 | so a rewind achieves a full replay only where it changes nothing |
| LineAssembler.StrChr | Simulator/tcpserver.c:173 | finds the first newline that no NUL precedes |
| LineAssembler.StrLen | Simulator/tcpserver.c:176 | stops at the first NUL |
| LineAssembler.CutAppend | Simulator/tcpserver.c:167-192 | cutting lines off a prefix and then off its rest with more bytes behind it is cutting them off the whole |
| LineAssembler.ChunkingIndependent | Simulator/tcpserver.c:144-192 | the commands handled and the bytes left over depend on the whole stream only, never on how reads cut it up |
| LineAssembler.CutSplits | Simulator/tcpserver.c:170-184 | on a NUL-free stream the cut is a split at newlines |
| LineAssembler.SplittingIsUnique | Simulator/tcpserver.c:170-184 | on a NUL-free stream something is a split at newlines if and only if it is the cut |
| LineAssembler.NulJams | Simulator/tcpserver.c:173 | a NUL in the pending line hides every newline received after it |
| LineAssembler.OneCommand | Simulator/tcpserver.c:174-181 | a line ending in 13 is handed over without it, any other nonempty line as it is, an empty line or a bare 13 not at all |
| LineAssembler.CommandsOfStream | Simulator/tcpserver.c:144-192 | over a NUL-free stream, however cut into reads, what is handed over is exactly the newline-separated pieces that are neither empty nor a bare 13, each without one last 13 |
| LineAssembler.ExampleServed | Simulator/tcpserver.c:144-192 | the bytes 83, 13, 10, 65 in three reads hand over the command 83 and hold 65 |
| LineAssembler.LegalFits | Simulator/tcpserver.c:147-149 | reads that respect the buffer size assemble only lines of at most 254 bytes with an unterminated rest of at most 255 |
| LineAssembler.ReceivableIff | Simulator/tcpserver.c:147-149 | a stream can be received by some sequence of reads of 1 to 255 - rx_pos bytes if and only if its lines have at most 254 bytes before the newline and its rest at most 255 |
| LineAssembler.CommandServer.TakeLine | Simulator/tcpserver.c:174-181 | terminates one line in place, strips one carriage return, and passes on what is nonempty; bytes behind the newline are untouched |
| LineAssembler.CommandServer.ServeLines | Simulator/tcpserver.c:170-184 | the newline loop hands over the commands of all complete lines and finds where the rest begins |
| LineAssembler.CommandServer.Compact | Simulator/tcpserver.c:186-192 | the rest is moved to the front and nothing else is kept |
| LineAssembler.CommandServer.Tick | Simulator/tcpserver.c:143-193 | data: commands of the complete lines, rest kept; nothing to read: no change; end of file or error: closed and emptied |
| Imu.ImuModel.constructor | Simulator/sensor_imu.c:16-25 | level hover: gravity on the vertical axis, no drift, not frozen |
| Imu.ImuModel.SetMotion | Simulator/sensor_imu.c:27-37 | replaces the true motion only |
| Imu.ImuModel.SetFrozen | Simulator/sensor_imu.c:63-75 | latches the true motion only on the way into the frozen state |
| Imu.ImuModel.Tick | Simulator/sensor_imu.c:39-61 | frozen: the latched motion, no drift; otherwise drift and noise added, for any draws |
| Imu.SamplesWalk | Simulator/sensor_imu.c:49-52 | sampling moves the three drifts by the sum of the steps drawn and nothing else |
| Imu.OutputIsNoisyTruth | Simulator/sensor_imu.c:49-60 | after any number of samples an IMU that is not frozen outputs the true motion plus the noise of the moment, and on the gyro axes all drift drawn so far |
| Battery.BatteryModel.constructor | Simulator/sensor_battery.c:5-14 | every field: full and present voltage as given, empty voltage scaled from 12.6 to 9.9, 5 A, nothing used, 0.05 ohm, no sag |
| Battery.BatteryModel.Step | Simulator/sensor_battery.c:21-53 | one tick at any load and step whose percentage fits eight bits: charge used, voltage, percentage capped at 100; draining keeps the invariant and needs no cap |
| Battery.BatteryModel.SetLoad | Simulator/sensor_battery.c:16-19 | changes the load only |
| Battery.BatteryModel.SetSag | Simulator/sensor_battery.c:55-59 | changes the sag fault and its target only |
| Battery.ChargeInRange | Simulator/sensor_battery.c:27-29 | the state of charge is between 0 and 1 and the percentage between 0 and 100 |
| Battery.DrainIsReportable | Simulator/sensor_battery.c:25-52 | draining a valid cell keeps it valid and its percentage in 0 to 100 |
| Battery.OpenCircuitBounds | Simulator/sensor_battery.c:32-34 | the open-circuit voltage lies between empty plus a tenth of the span and full |
| Battery.UsedLowersVoltage | Simulator/sensor_battery.c:29-51 | more charge used never raises the unsagged voltage or the percentage |
| Battery.SagBetween | Simulator/sensor_battery.c:40-45 | a sag fault yields a value between the unsagged voltage and the target |
| Battery.UsedIsDrawn | Simulator/sensor_battery.c:25-27 | over any run the charge used is the sum of what was drawn, capped at the capacity |
| Battery.ConstantLoad | Simulator/sensor_battery.c:25-27 | after n ticks at constant load it is n times the charge of one, capped at the capacity |
| Battery.ChargeInNumbers | Simulator/sensor_battery.c:25-27 | after n ticks of dt at load I it is min(capacity, initial + n·I·dt/3.6), written out |
| Battery.TickInNumbers | Simulator/sensor_battery.c:25-47 | one tick at any load: charge, discharge curve, internal drop and the sag that leaves 0.95 of the distance to its target, all constants written out |
| Battery.PercentIsRounded | Simulator/sensor_battery.c:51 | the percentage is the state of charge to the nearest whole percent, halves up |
| Battery.FullCellReads | Simulator/sensor_battery.c:5-53 | a full 12.6 V cell at 5 A reads 12.35 V and 100 percent |
| Battery.NeverRises | Simulator/sensor_battery.c:21-53 | at constant load the unsagged voltage and the percentage never rise from tick to tick |
| FaultInjector.Injector.constructor | Simulator/fault_injector.c:5-14 | all slots inactive, no effect |
| FaultInjector.Injector.Inject | Simulator/fault_injector.c:16-34 | takes the first free slot and disturbs no other; fails exactly when all eight are active |
| FaultInjector.Injector.Clear | Simulator/fault_injector.c:36-42 | deactivates one slot; slots out of range change nothing |
| FaultInjector.Injector.ClearAll | Simulator/fault_injector.c:44-58 | deactivates every slot and heals the models at once |
| FaultInjector.Injector.Tick | Simulator/fault_injector.c:60-101 | expires what is due, and every effect on the models is then the disjunction over the slots still active |
| FaultInjector.Injector.GetFlags | Simulator/fault_injector.c:103-117 | bits 0 to 3 say which of four kinds have an active slot, the same disjunctions; packet corruption has no bit |
| FaultInjector.GpsModel.SetSignalLost | Simulator/sensor_gps.c:74-84 | fix and satellites follow the signal |
| FaultInjector.HighestSagWins | Simulator/fault_injector.c:86-87 | of several sags the one in the highest slot sets the target |
| FaultInjector.NoSagTarget | Simulator/fault_injector.c:68 | with no sag active the target is 10 V |
| FaultInjector.ClockTurns | Simulator/fault_injector.c:76 | elapsed time is right across the turn of the 32-bit clock |
| FaultInjector.ClearedSlot | Simulator/fault_injector.c:36-42 | a cleared slot is inactive and of no kind, and no other slot changes |
| FaultInjector.EffectsNext | Simulator/fault_injector.c:82-91 | one round of the accumulating loop extends the disjunctions by one slot |
| FaultRuns.Perform | Simulator/fault_injector.c:16-101 | the methods on the mutable models are the steps of the runs below |
| FaultRuns.SurvivesIff | Simulator/fault_injector.c:75-80 | over every run, a fault lasts exactly as long as nobody clears it and every tick sees a wrapped lag below its duration, and its slot is undisturbed until then |
| FaultRuns.UntimedLasts | Simulator/fault_injector.c:75-80 | a fault of duration 0 lasts if and only if nobody clears it |
| FaultRuns.DeadlineKept | Simulator/fault_injector.c:75-80 | with ticks in order and the first late one less than 2^32 ms after the injection, a fault of duration d injected at t lasts exactly while nobody clears it and the latest tick is before t + d |
| FaultRuns.FirstLateTick | Simulator/fault_injector.c:75-76 | without that proviso: the first tick past the deadline takes the fault down if and only if its lag modulo 2^32 is at least the duration |
| FaultRuns.DeadlineMissed | Simulator/fault_injector.c:75-76 | a one-second fault is still active after a tick 2^32 + 999 ms later |
| FaultRuns.FrozenSpan | Simulator/fault_injector.c:85-96 | an IMU that shows some motion goes on showing it while each tick finds some freeze active |
| FaultRuns.FrozenOutput | Simulator/sensor_imu.c:39-75 | from the tick that first freezes it, the IMU outputs the true motion of that moment, whatever faults overlap, whatever the true motion becomes and whatever the noise, while each tick finds some freeze active |
| FaultRuns.FreezeHoldsIff | Simulator/fault_injector.c:44-96 | a motion on show stays on show throughout a run if and only if nobody clears everything at once and every tick finds some freeze active |
| FaultRuns.ClearAllRelatches | Simulator/fault_injector.c:44-50 | clearing everything thaws at once, so a freeze injected before the next tick latches a later motion |
| FlightFsm.FsmContext.constructor | Firmware/Core/Src/flight_fsm.c:145-151 | the initial state with nothing logged |
| FlightFsm.FsmContext.DoTransition | Firmware/Core/Src/flight_fsm.c:43-82 | the whole new context and the log entry of a transition, with its message and the square of the acceleration magnitude |
| FlightFsm.MessageIdentifies | Firmware/Core/Src/flight_fsm.c:55-59 | a transition message fits its buffer and determines both states |
| FlightFsm.FsmContext.TransitionLegal | Firmware/Core/Src/flight_fsm.c:88-99 | the scan answers membership in the table |
| FlightFsm.FsmContext.Step | Firmware/Core/Src/flight_fsm.c:153-219 | one tick: the next context, and true exactly when the state machine moved |
| FlightFsm.FsmContext.Order | Firmware/Core/Src/flight_fsm.c:221-236 | one command: the next context, and true exactly when it was obeyed |
| FsmRuns.TableIsLabelled | Firmware/Core/Src/flight_fsm.c:22-36 | an edge of the table is determined by its two states |
| FsmRuns.MovesAreListed | Firmware/Core/Src/flight_fsm.c:153-236 | every move of a tick or a command, hard-coded or looked up, is in the table |
| FsmRuns.CommandAccepted | Firmware/Core/Src/flight_fsm.c:221-235 | a command is obeyed exactly in three situations, whatever sensors and faults say |
| FsmRuns.RunIsPath | Firmware/Core/Src/flight_fsm.c:43-53 | in every run the logged changes form a path in the table from INIT to the current state, and the counter is its length modulo 2^32 |
| FsmRuns.PathEdges | Firmware/Core/Src/flight_fsm.c:22-36 | consecutive entries of such a path join up, each is an edge named by its message, and none enters INIT |
| FsmRuns.InitIsLeftForGood | Firmware/Core/Src/flight_fsm.c:22-36 | once left, INIT is never entered again |
| FsmRuns.RunBalance | Firmware/Core/Src/flight_fsm.c:49-53 | each state has been entered as often as left, but for the start and the current state |
| FsmRuns.LiftoffNeedsArming | Firmware/Core/Src/flight_fsm.c:185-191 | every liftoff is a fault-free tick above 0.15 g and follows an arm command that was obeyed, with the machine armed throughout |
| FsmRuns.LiftoffsAreSeparated | Firmware/Core/Src/flight_fsm.c:185-191 | between two liftoffs an arm command was obeyed |
| FsmRuns.TickFaults | Firmware/Core/Src/flight_fsm.c:158-212 | after a tick outside INIT the state is FAULT exactly when the flags are nonzero |
| FsmRuns.FaultInvariant | Firmware/Core/Src/flight_fsm.c:158-212 | in every run FAULT has nonzero flags, FLYING and LANDING have none, and PREFLIGHT or ARMED with flags occurs only before the first tick after the one that left INIT |
| FsmRuns.FaultsOnGroundIff | Firmware/Core/Src/flight_fsm.c:158-169 | in every run that stands ready or armed, faults are stored if and only if the latest tick is the one that left INIT and it was given faults |
| FsmRuns.ArmedWithFaults | Firmware/Core/Src/flight_fsm.c:112-119 | that window is real: the arming guard is never consulted, so a run arms with faults recorded |
| FsmRuns.LiftsOffIff | Firmware/Core/Src/flight_fsm.c:121-127 | an armed vehicle lifts off at a tick if and only if the flags are clear and the vertical reading exceeds 0.15 g; at rest it does |
| FsmRuns.LandsIff | Firmware/Core/Src/flight_fsm.c:129-134 | a flying vehicle lands at a tick if and only if the flags are clear, the altitude is below 0.5 m and the ground speed below 0.3 m/s |
| FsmRuns.TickLeads | Firmware/Core/Src/flight_fsm.c:153-219 | where a tick leads from each of the six states, with every threshold written out |
| FsmRuns.EventIffCause | Firmware/Core/Src/flight_fsm.c:153-236 | in every run an event takes place at an input if and only if its cause is there: arming and disarming by command only, each other event at a tick that meets its thresholds |
| FsmRuns.EntryRecords | Firmware/Core/Src/flight_fsm.c:43-82 | in every run the entry an input adds holds the reading of that input, or zeros for a command, and the low byte of the flags |
| FsmRuns.MessageTexts | Firmware/Core/Src/flight_fsm.c:55-59 | the text of messages |
| FsmRuns.GuardAndStart | Firmware/Core/Src/flight_fsm.c:112-119 | the arming guard in numbers, and the state every run begins in |
| FsmTask.Evaluate | Firmware/Core/Src/task_fsm.c:49-68 | each of the three bits if and only if its condition on the sensors; no other bit |
| FsmTaskRuns.FaultBits | Firmware/Core/Src/task_fsm.c:49-68 | each bit in numbers: no fix or fewer than 4 satellites; all six axes zero; below 10.5 V |
| FsmTaskRuns.AlarmBits | Firmware/Core/Src/task_health.c:85-96 | the two alarms are bits 3 and 5 |
| FsmTaskRuns.TimedOutIff | Firmware/Core/Src/task_health.c:90-96 | on true times seen modulo 2^32 the link times out if and only if a packet has come, at a time not read as never, and the wrapped silence exceeds 1000 ms |
| FsmTaskRuns.SensorsAreLatest | Firmware/Core/Src/task_fsm.c:91-97 | in every run the sensors retained are those of the latest frame that arrived, or zeros before any |
| FsmTaskRuns.EmptyTurnKeepsSensors | Firmware/Core/Src/task_fsm.c:96-101 | a cycle that finds the queue empty keeps the sensors, and outside INIT the stored faults |
| FsmTaskRuns.WordKeepsFlags | Firmware/Core/Src/task_fsm.c:115-116 | the flags reach the state machine unchanged |
| FsmTask.EventFlags.Interleave | Firmware/Core/Src/task_health.c:85-96 | some atomic sets and clears by the health task |
| FsmTask.EventFlags.HealthCheck | Firmware/Core/Src/task_health.c:79-96 | the two alarms of one health period |
| FsmTask.FlightTask.Sync | Firmware/Core/Src/task_fsm.c:103-112 | get, set, clear with the health task in every gap |
| FsmTask.FlightTask.RunCycle | Firmware/Core/Src/task_fsm.c:85-138 | one whole cycle: retained sensors, flags, state machine and fault log |
| FsmTaskRuns.SensorBitsSynced | Firmware/Core/Src/task_fsm.c:103-112 | for every interleaving, when the clear is done bits 0 to 2 are the faults just evaluated |
| FsmTaskRuns.CycleSensorBits | Firmware/Core/Src/task_fsm.c:103-112 | and they still are at the end of the cycle |
| FsmTaskRuns.HealthPeriodSets | Firmware/Core/Src/task_health.c:85-96 | undisturbed, a health period leaves each alarm saying what it found and the sensor bits alone |
| FsmTaskRuns.AlarmWhenSynced | Firmware/Core/Src/task_fsm.c:103-112 | when the clear is done an alarm stands if and only if the get did not see it and the last health operation since the get raised it |
| FsmTaskRuns.AlarmAfterTurn | Firmware/Core/Src/task_fsm.c:103-112 | the same at the end of the cycle, with the window that counts opening at the get, or at the clear if the get saw the alarm |
| FsmTaskRuns.StandingAlarmIsNew | Firmware/Core/Src/task_fsm.c:110-112 | an alarm left standing was raised by the health task after the get |
| FsmTaskRuns.AlarmKeptIff | Firmware/Core/Src/task_fsm.c:110-112 | the flags agree with what the health task last said unless the get saw the alarm, it was not lowered before the clear, and the health task has not acted since; exactly then it is lost |
| FsmTaskRuns.AlarmLost | Firmware/Core/Src/task_fsm.c:110-112 | a cycle in which the health task does not act after the get leaves the alarm down |
| FsmTaskRuns.ReportIsTrue | Firmware/Core/Src/task_fsm.c:120-135 | an entry exactly when the flags changed; FAULT_SET implies a newly raised bit, FAULT_CLEAR a dropped one |
| FsmTaskRuns.TurnLogged | Firmware/Core/Src/task_fsm.c:120-135 | in every run a cycle adds no entry exactly when the sensor bits were already right and its get saw no alarm; otherwise one entry with the new state, faults and reading, of the kind the flags call for |
| FsmTaskRuns.LoggedAsSetIff | Firmware/Core/Src/task_fsm.c:120-128 | a change is logged as FAULT_SET if and only if the newly raised flags, as a word, outrank the dropped ones; so that is exactly when a raise is logged as one |
| FsmTaskRuns.RecoveryHidesLoss | Firmware/Core/Src/task_fsm.c:121-128 | with no alarm up, a GPS loss that comes with the recovery of the battery is logged as a clear |
| FsmTaskRuns.RaiseLoggedAsClear | Firmware/Core/Src/task_fsm.c:121-128 | an alarm the get saw outranks every sensor fault, so what appears with it is logged as a clear |
| FsmTaskRuns.TaskRunsTheMachine | Firmware/Core/Src/task_fsm.c:85-118 | every run of the flight task is a run of the state machine, so all results about those apply |
| FsmTaskRuns.FlagsFollowSensors | Firmware/Core/Src/task_fsm.c:99-116 | after every cycle the sensor bits and the flags stored by the state machine are the faults of the retained sensors |
| FsmTaskRuns.TurnDecidesFault | Firmware/Core/Src/task_fsm.c:94-118 | after a cycle begun outside INIT the state is FAULT if and only if the retained sensors are faulty; a cycle that ends armed, flying or landing retains a fix, at least 4 satellites and at least 10.5 V |
| FsmTaskRuns.FlightIsHealthy | Firmware/Core/Src/task_fsm.c:94-118 | in any run with any commands, flying and landing rest on healthy retained sensors and FAULT on faulty ones |
| FsmTaskRuns.FaultsAreEvaluated | Firmware/Core/Src/task_fsm.c:99-116 | in every run that has left INIT the stored flags are the faults of the retained sensors |
| FsmTaskRuns.ArmRespectsGuardIff | Firmware/Core/Src/flight_fsm.c:112-119 | in every run an arm command in PREFLIGHT is obeyed, and the guard it should have consulted holds if and only if no fault is stored and the battery has at least 11 V; a fault is stored exactly if the latest tick is the one that left INIT and the sensors are faulty |
| FsmTaskRuns.ArmedAtLowVoltage | Firmware/Core/Src/flight_fsm.c:112-119 | a fault-free vehicle at 10.8 V arms against the guard |
| FsmTaskRuns.HealthDoesNotSteer | Firmware/Core/Src/task_fsm.c:115-116 | taking every health operation out of a run changes neither its states nor its sensors |
| Mailbox.MessageQueue.Get | Firmware/Core/Src/task_sensor.c:75-78 | hands over the oldest item or nothing |
| Mailbox.MessageQueue.Put | Firmware/Core/Src/task_sensor.c:79 | appends unless four are queued |
| Mailbox.RunInv | Firmware/Core/Src/task_sensor.c:74-79 | an invariant of every interleaving of the sensor task's count, discard and put with the flight task's get |
| Mailbox.TestsInNumbers | Firmware/Core/Src/task_sensor.c:75-79 | the put has room below four, and the count check asks for a discard above zero |
| Mailbox.NeverMoreThanOne | Firmware/Core/Src/task_sensor.c:74-79 | the queue never holds more than one frame and no put fails |
| Mailbox.DeliveredInOrderOnce | Firmware/Core/Src/task_sensor.c:74-79 | the flight task gets frames in the order they were put, none twice |
| Mailbox.GetIsNewest | Firmware/Core/Src/task_fsm.c:89-92 | each get hands over the newest frame put so far, or nothing, and nothing only when it has that frame already or a newer one is about to be put |
| Mailbox.FramesConserved | Firmware/Core/Src/task_sensor.c:74-79 | each frame parsed is delivered, discarded, queued or still in hand, and counted once |
| SensorTask.FrameHandler.Post | Firmware/Core/Src/task_sensor.c:74-79 | afterwards the queue holds exactly the new record, whatever the flight task takes in between |
| SensorTask.FrameHandler.HandleFrame | Firmware/Core/Src/task_sensor.c:62-107 | a sensor frame that unpacks becomes the latest record and the only one queued; one that is too short counts as an error; a heartbeat is answered; other types change nothing |
| SensorTask.FrameHandler.Acknowledge | Firmware/Core/Src/task_sensor.c:86-99 | the seven bytes written out by hand are the printing of an acknowledgement frame |

## Left out

- UART, pseudo-terminal, socket, signal and HAL code, and peripheral set-up: input and output only.
- `Simulator/scenario_engine.h`: a copy of the server; motion and position are arbitrary inputs here.
- Parsing of a command inside `handle_command`, and closing on QUIT within the line loop: the sink of complete lines is opaque and leaves the connection open.
- The random noise generators, the barometer, and GPS output: noise is an arbitrary input; of the GPS only the signal-lost switch is modelled.
- IEEE 754 rounding and NaN: thresholds, the IMU and the battery are over real numbers.
- RTOS internals: mutex-protected operations and queue and flag calls are atomic steps; periods, priorities, the watchdog and stack measurement are out, so whether the stack is critical is an input.
- The hand-off from the interrupt through `s_byte_ready`: `HandleFrame` is given the accepted frame instead.
- Telemetry, health and black-box payload structs: their framing is `BuildFrame` over an arbitrary payload.
- Record sizes in bytes, and the assertion on them (Firmware/Core/Src/blackbox.c:7).
- The discarded extra computation of the check at Firmware/Core/Src/protocol.c:297, which has no effect.
- The simulator's CRC loop and field writers are line for line the firmware's and are modelled once.
- The square root in the acceleration magnitude of a state-change record, which holds its square here, and console output.
- Burst detection across the boundary between body and check: the check is sent low byte first, so it is not claimed.
- FsmTask.Evaluate: flag words of the event group are modelled by their low byte, where all six flags are; nothing sets the others. The state machine itself takes all 32 bits.
- Battery.BatteryModel.Step: requires a positive capacity, and a percentage below 256; beyond that the source's conversion to eight bits is undefined.
- LineAssembler.CommandServer.Tick: a read of zero bytes, including one asked for with the buffer full, is `EndOfFile`; accepting a new client is not part of the model.
