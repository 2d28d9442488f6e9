# A model of a bare-metal PTP slave on lwIP

The repository is a PTP (IEEE 1588) slave for a Xilinx GEM controller: a receive and
transmit path that shares descriptor rings with a DMA engine, an Ethernet layer, an
interpreter for PTP messages, and a servo that disciplines the timestamp counter. This
project models those parts in Dafny and proves what they do: under every interleaving with
the hardware, on every run of messages, for every input.

`dafny verify dfyconfig.toml` checks all of it.

| module | what it models |
|---|---|
| `CInt`, `Gf2` | C division and conversions; exclusive or on naturals |
| `PtpTime` | the four-timestamp arithmetic, with overflow as an undefined result |
| `PtpWire` | the ten-byte timestamp codec and the Delay_Req message |
| `PtpSync` | the message interpreter, and every run of messages through it |
| `Tsu` | the adjustment register, and the reads and writes of a running counter |
| `Timesync` | the synchronisation state machine and its PPS filter |
| `ClockLoop` | the servo: accounting over every run, convergence, points of rest |
| `SlaveClock` | interpreter and servo together: when the clock is set, and to what |
| `Crc32` | the table-driven CRC against a bit-serial register, and the multicast hash |
| `TxHandoff` | transmission as a state machine of single writes, driver against hardware |
| `PbufHeap`, `TxDma` | reference-counted buffers, and the transmit code as it runs |
| `RxRing`, `RxDma` | the receive ring, and the receive code as it runs |
| `Ethernet` | framing, dispatch, the gPTP hook, and who frees a buffer |

## What the proofs found

These are properties one would expect that the code does not have. Each has its exact
condition below, and those that take a run to fail have such a run.

- The "synchronised time" that a Delay_Resp yields is the master's receipt time t4, to the
  nanosecond or one off. t1 and t2 cancel: neither path delay nor offset enters
  (`PtpTime.Telescopes`). So the reported difference is not the offset from master of
  section 11.3 of IEEE 1588-2008: it contains the whole turnaround from the master's receipt
  of the Delay_Req to the slave's handling of the Delay_Resp (`PtpTime.ReportedDifference`).
- Wire nanoseconds of 10^9 or more are not rejected. The arithmetic overflows exactly when one
  of six inequalities on the nanoseconds fails, and a run of messages is defined exactly when
  each of its Delay_Resps meets them (`PtpTime.EvaluatesIff`, `PtpSync.RunTracks`); a Follow_Up
  with 1147483650 ns or more is enough (`PtpSync.ExchangeIff`).
- In the dead band the register keeps its old correction and is written again. A closed loop in
  range runs into a stale correction if and only if it did not start at rest
  (`ClockLoop.StaleIff`). From power-on with any error below a second the loop never overflows
  and never comes to rest; stale corrections never cease, and the clock never stays within
  250 ns (`ClockLoop.PowerOnStaysInRange`, `ClockLoop.PowerOnRest`, `ClockLoop.StaleForEver`,
  `ClockLoop.MissesForEver`). While it swings, every two cycles make the error larger by nearly
  a tenth, until the swing breaks off (`ClockLoop.TwoCyclesGrow`, `ClockLoop.SwingsEnd`).
- With the PTP servo as its only driver the clock is never set again after the first fine
  report, so a whole-second error that appears later, or a Delay_Resp handled across a second
  boundary, is never corrected (`SlaveClock.SecondsStayWrong`, `SlaveClock.LateSecondStays`).
- The servo's 32-bit sum overflows exactly when the differences since the last report of whole
  seconds add up to more than 32 bits hold (`SlaveClock.DefinedIff`); three Delay_Resps, each
  handled at the start of its second, are enough (`SlaveClock.ThreeResponsesOverflow`).
- Setting the clock is exact if and only if 32 bits hold the seconds and the nanoseconds do not
  wrap between the two register writes (`Tsu.SetLosesWraps`, `SlaveClock.SetReachesMaster`);
  reading the two registers once each tears at a second boundary (`Tsu.PlainReadTears`).
- When every buffer is queued or with the stack after a batch of received frames, the
  hardware is left without buffers, and the receive handler never gives it one again, because
  it refills only after it has found a frame (`RxDma.Receiver.RecvHandler`, `RxDma.Starve`).
- `xemacpsif_input` frees every VLAN-tagged frame, so the VLAN branch of `ethernet_input` is
  dead behind this driver (`Ethernet.SeenIff`, `Ethernet.TaggedIsDropped`).

## Assumptions

- **Ring library.** `XEmacPs_BdRing` keeps four contiguous circular segments. Alloc succeeds
  exactly when enough descriptors are free and changes no descriptor; ToHw moves a set into
  the hardware segment, and is refused unless the set is the first one allocated; FromHwTx returns the whole frames at its head whose first descriptor
  is marked used; FromHwRx returns the filled descriptors at its head; Free moves its head.
  Create and Clone leave transmit descriptors used and receive descriptors clear, with the
  wrap bit on the last one only.
- **Hardware.** The transmitter fetches the descriptor at its position, stops on a used bit
  between frames, treats one within a frame as an error, and after the descriptor marked last
  marks only the first one of the frame used. Disabling and enabling it puts it back at the
  ring's base. The receiver fills the buffer of the descriptor at its position unless the
  ownership bit is set, then sets it. Each reads and writes whole descriptors.
- **Memory.** Sequential consistency: a barrier does nothing. One statement that reads and
  writes a descriptor word is one step, and the hardware may take any number of steps between
  two of them.
- **Calls.** The driver's own transmit functions do not interrupt one another: interrupts are
  off while they run.
- **lwIP.** `pbuf_ref` and `pbuf_free` count as `PbufHeap` says: a chain holds one reference
  to each successor, and freeing goes on along a chain as long as counts reach zero.
  `pbuf_alloc` takes a buffer from a pool that only the receive path uses.
- **Time.** What the clock reads when a message is handled, the uptime, and how far the
  counter runs between register accesses are parameters. A write of the adjustment register
  shifts the counter by the signed amount it encodes. In the closed loop the master is steady
  and nothing else moves the clock; reports across a second boundary, which clear the
  integrator, may come at any time, and no report sets the clock, as in fine sync.
- **Parameters.** Ring size, queue capacity, buffers, the largest descriptor length (maximum
  frame size less 18), VLAN and IPv6 options are parameters of the proofs, not constants.
- **Timestamps.** Wire and local nanoseconds are below 10^9 and seconds below 2^48 (section
  5.3.3 of IEEE 1588-2008) where a lemma says `Normal` or `Conforming`.

## Model

| member | source | states |
|---|---|---|
| `PtpTime.HalveValue` | IEEE1588/ptp_sync.c:337-351 | halving a timestamp of any sign and parity never overflows and is half its value in nanoseconds, off by half a nanosecond toward zero nanoseconds exactly when the nanoseconds are odd |
| `PtpTime.SmallHalves` | IEEE1588/ptp_sync.c:386-390 | sum and difference of two intervals between wire timestamps, and their halves, stay within 64 and 32 bits |
| `PtpTime.CarriesCancel` | IEEE1588/ptp_sync.c:386-393 | delay and offset take the same halving branch for all inputs, so that their 500000000 ns carries cancel in the difference |
| `PtpTime.HalvesTelescope` | IEEE1588/ptp_sync.c:386-393 | the difference of the truncated halves of x+y and x-y is y, except one nanosecond toward zero exactly when x+y is odd and y is longer than x |
| `PtpTime.Telescopes` | IEEE1588/ptp_sync.c:384-395 | for all four timestamps and every local time no operation overflows, and the synchronised time is t4, one nanosecond nearer t3 exactly when the sum of the nanosecond differences is odd and that of t4 and t3 is the longer |
| `PtpTime.ClosedFormNormal` | IEEE1588/ptp_sync.c:393-395 | the synchronised time is always normalised, the nanosecond difference stays below 10^9, and the difference has zero seconds exactly when t4 and the local clock show the same second |
| `PtpTime.MixedBranchesOverflow` | IEEE1588/ptp_sync.c:337-351 | the cancellation is needed: a delay and an offset that took different branches can overflow the 32-bit subtraction |
| `PtpTime.EvaluatesIff` | IEEE1588/ptp_sync.c:384-395 | for every t1 and t4 that ten wire bytes can decode to, some operation overflows if and only if one of six inequalities on the nanoseconds fails; otherwise the report has the same closed form as for normal timestamps |
| `PtpTime.MeasuresPath` | IEEE1588/ptp_sync.c:384-390 | for path delays d1, d2 and slave offset theta, delay and offset are within half a nanosecond of (d1+d2)/2 and theta+(d1-d2)/2, and exact when d1 = d2 |
| `PtpTime.ReportedDifference` | IEEE1588/ptp_sync.c:393-397 | the reported difference is minus theta, minus the turnaround, minus the nudge; it is near minus theta only if the turnaround is 2 ns or less |
| `PtpWire.TsRoundTrip` | IEEE1588/ptp_sync.c:159-192 | store undoes prepare for every 48-bit second count and every 32-bit signed nanosecond count |
| `PtpWire.BytesRoundTrip` | IEEE1588/ptp_sync.c:159-192 | prepare undoes store on every ten bytes, valid timestamp or not |
| `PtpWire.WriteBytes` | IEEE1588/ptp_sync.c:162-171 | a loop that runs down from the last byte writes exactly the big-endian bytes of a signed number, and no others |
| `PtpWire.PrepareTimestamp` | IEEE1588/ptp_sync.c:159-173 | the two loops write exactly the timestamp's encoding, and no other byte of the message |
| `PtpWire.StoreTimestamp` | IEEE1588/ptp_sync.c:175-192 | the two accumulating loops compute the big-endian value, the nanoseconds converted to a signed 32-bit integer |
| `PtpWire.StampIs` | IEEE1588/ptp_sync.c:175-192 | a message carries its timestamp big-endian from byte 34 on: six bytes of seconds, then four of nanoseconds in two's complement |
| `PtpWire.DelayReqDecodes` | IEEE1588/ptp_sync.c:235-253 | every Delay_Req is 44 bytes long and says so, keeps the first half byte and the version of the Follow_Up, has its type and control field 5, decodes to its send time, and is zero everywhere else |
| `PtpSync.Slave.constructor` | IEEE1588/ptp_sync.c:359-359 | the static timestamps and the static Delay_Req start as zero |
| `PtpSync.Slave.FixHeader` | IEEE1588/ptp_sync.c:244-250 | the field writes set type, big-endian length and control field and clear the others, touching neither the version nor the timestamp |
| `PtpSync.Slave.SendDelayReq` | IEEE1588/ptp_sync.c:235-253 | the static buffer is rewritten to the Delay_Req of this header and time, whatever the previous request left in it, and that is what is sent |
| `PtpSync.Slave.Interpret` | IEEE1588/ptp_sync.c:353-430 | one message updates the static variables, sends and reports as the step function says, and returns 0 for the types 0, 3, 8, 9, 10 and 11 only, and -1 otherwise |
| `PtpSync.RunTracks` | IEEE1588/ptp_sync.c:365-398 | on every run of messages in any order, whatever nanoseconds they carry, nothing overflows if and only if every Delay_Resp meets the six inequalities with the latest times before it; and then t1, t2, t3 are the latest Follow_Up's origin, the latest Sync's arrival and the latest Follow_Up's handling |
| `PtpSync.RunHolds` | IEEE1588/ptp_sync.c:367-377 | after every defined run t2 is the time of the latest message of type 0, and t1 and t3 are the timestamp and the time of the latest of type 8 |
| `PtpSync.ResponseReports` | IEEE1588/ptp_sync.c:379-398 | and a message of type 9 then reports what the arithmetic makes of those three, its own timestamp and the time at which it is handled, or overflows with it |
| `PtpSync.ConformingComputes` | IEEE1588/ptp_sync.c:384-395 | wire nanoseconds below 10^9 always meet them: a run of conforming messages never overflows |
| `PtpSync.ExchangeIff` | IEEE1588/ptp_sync.c:372-398 | a Follow_Up, and a Delay_Resp with 999999999 ns: the exchange is defined if and only if the Follow_Up's nanoseconds lie between -1147483648 and 1147483649 |
| `PtpSync.RunReports` | IEEE1588/ptp_sync.c:379-398 | every defined run makes exactly one report for each Delay_Resp, in order, computed from the latest Sync arrival, origin and send time before it and from itself |
| `PtpSync.ReportsAreLocal` | IEEE1588/ptp_sync.c:365-398 | two defined histories that agree on those three times make the same report on the same Delay_Resp, or both overflow on it, whatever else they contain |
| `PtpSync.RunSends` | IEEE1588/ptp_sync.c:372-377 | every defined run sends exactly one Delay_Req for each Follow_Up, in order |
| `PtpSync.SentRequestsDecode` | IEEE1588/ptp_sync.c:235-253 | every Delay_Req ever sent has 44 bytes, the first half byte and the version of its Follow_Up, and nothing else but type, length, control field and the time at which that was handled |
| `PtpSync.ReportsTrackReceipt` | IEEE1588/ptp_sync.c:393-397 | in every run every report's synchronised time is its Delay_Resp's timestamp within a nanosecond, normalised, and its difference has zero seconds exactly when both clocks show the same second |
| `Tsu.TunedDecodes` | IEEE1588/ttc_tsu/tsu_time.c:42-54 | outside the dead band the 30-bit register decodes to the computed correction if and only if that is below 2^30 |
| `Tsu.TuneFits` | IEEE1588/ttc_tsu/tsu_time.c:45-54 | that holds, without overflow, for errors below a second and integrators up to 1474836499 |
| `Tsu.TuneBoundIsTight` | IEEE1588/ttc_tsu/tsu_time.c:45-54 | with one nanosecond more in the integrator a correction of more than a second becomes none |
| `Tsu.WordInjective` | IEEE1588/ttc_tsu/tsu_time.h:27-37 | the register's word determines magnitude and direction |
| `Tsu.WordMeans` | IEEE1588/ttc_tsu/tsu_time.h:27-36 | what a device reads from the word, the top bit for the direction and the low 30 bits for the shift, is the signed shift |
| `Tsu.KeptIff` | IEEE1588/ttc_tsu/tsu_time.c:48-49 | the tuning leaves every register alone if and only if error plus a twentieth of the sum is within the boundary and the error is above its negative |
| `Tsu.ReadLinearises` | IEEE1588/ttc_tsu/tsu_time.c:158-171 | however far the counter runs between the three reads, the result lies between its values at the first and the last, and is its value at the middle read within one second |
| `Tsu.ReadsAreMonotone` | IEEE1588/ttc_tsu/tsu_time.c:158-171 | reads that follow one another never go backwards |
| `Tsu.PlainReadTears` | IEEE1588/ttc_tsu/tsu_time.c:98-99 | one read of each register yields a time between the two if and only if no second boundary lies between them |
| `Tsu.SetLosesWraps` | IEEE1588/ttc_tsu/tsu_time.c:173-177 | setting the clock to any time is exact if and only if 32 bits hold the seconds and the nanoseconds do not wrap between the two writes; each wrap loses a second |
| `Tsu.Driver.GetTime` | IEEE1588/ttc_tsu/tsu_time.c:158-171 | the three register reads of a counter that runs on in between return a normalised time between entry and exit |
| `Tsu.Driver.SetTime` | IEEE1588/ttc_tsu/tsu_time.c:173-177 | two writes with the counter running in between leave the value of which SetLosesWraps says what is lost |
| `Tsu.Driver.ClockFineTune` | IEEE1588/ttc_tsu/tsu_time.c:42-54 | the two field assignments leave the tuned register, and the old one in the dead band |
| `Tsu.Driver.Systick` | IEEE1588/ttc_tsu/tsu_time.c:88-92 | every tick shifts the clock by the register's signed value, stale or not, and counts modulo 2^32 |
| `Timesync.Callbacks.CoarseTimeReceived` | IEEE1588/timesync.c:51-75 | the resynchronisation decision, its short-circuited counter included, changes the state as the transition function says, and sets the counter exactly when that says so, to the time given with what runs on between the writes |
| `Timesync.Callbacks.FineTimeReceived` | IEEE1588/timesync.c:77-87 | always fine sync; the counter is set exactly for a positive timestamp, to the time given |
| `Timesync.Callbacks.PpsReceived` | IEEE1588/timesync.c:89-133 | the early returns and both corrections leave the state, the counter and the adjustment register that the transition function calls for; only a pulse on time in fine sync reads the clock |
| `Timesync.Callbacks.CoarseTimeoutExpired` | IEEE1588/timesync.c:135-140 | coarse sync is lost, fine sync is kept, and the coarse service is down |
| `Timesync.Callbacks.FineTimeoutExpired` | IEEE1588/timesync.c:142-151 | fine sync falls back to coarse while the coarse service is up, and is lost otherwise |
| `Timesync.RunKeepsInv` | IEEE1588/timesync.c:51-151 | under every interleaving of callbacks coarse sync implies a live coarse service, never-synced and lost imply a dead one, and the counter stays within 0 to 60 |
| `Timesync.NeverIsLeftForGood` | IEEE1588/timesync.c:58-151 | no run of callbacks returns to never-synced |
| `Timesync.OnlyCoarseCounts` | IEEE1588/timesync.c:58-71 | nothing but a coarse reception moves the resynchronisation counter |
| `Timesync.CoarseStartsSync` | IEEE1588/timesync.c:58-74 | without sync a coarse reception starts coarse sync with a cleared counter, and sets the clock if its time is positive, keeping the nanoseconds shown if it has none |
| `Timesync.ServiceIsAlive` | IEEE1588/timesync.c:55-140 | on every run the coarse service counts as alive if and only if some coarse reception has not been followed by a coarse timeout |
| `Timesync.TimeoutsFallBack` | IEEE1588/timesync.c:135-151 | on every run a fine timeout in fine sync falls back to coarse sync exactly in that case and loses sync otherwise; a coarse timeout loses coarse sync only |
| `Timesync.Remembers` | IEEE1588/timesync.c:56-94 | on every run the state holds time and stamp of the latest coarse reception and the stamp of the latest pulse |
| `Timesync.PulseActs` | IEEE1588/timesync.c:89-133 | on every run a pulse does something in fine sync only, 950 to 1050 ms after the latest: more than 10 us off it sets the clock to 1200 ns into the second after the latest coarse time, if that is less than 1000 ms old; within 10 us it tunes for the moved average; a pulse on time ends coarse sync |
| `Timesync.ResyncCount` | IEEE1588/timesync.c:58-74 | n coarse receptions in coarse sync, starting with counter c, set the clock exactly (c+n)/61 times and leave the counter at (c+n) mod 61 |
| `Timesync.FineIsAbsorbing` | IEEE1588/ptp.c:74-98 | with the PTP servo as the only caller fine sync is final, the clock is never set again and the counter stays |
| `Timesync.FoldedRange` | IEEE1588/timesync.c:102-105 | the folded difference is within half a second and congruent to the time since the pulse |
| `Timesync.SmoothedApproaches` | IEEE1588/timesync.c:123-124 | one step moves the average toward the sample by a tenth of the distance, rounded down, never past it |
| `Timesync.AverageStaysBounded` | IEEE1588/timesync.c:107-126 | under every interleaving without an outside error report the average stays within 10000 |
| `Timesync.SmoothedSettles` | IEEE1588/timesync.c:123-124 | on a constant sample the distance falls below ten within as many steps as it is long, and then stays for good |
| `ClockLoop.Servo.constructor` | IEEE1588/ptp.c:72-72 | at power-on integrator and register are zero and the state machine has never been in sync |
| `ClockLoop.Servo.Process` | IEEE1588/ptp.c:70-99 | one report, through the fine-tune code, the tick and the callbacks, changes servo, state machine, register and counter as one step of the combined machine: the counter is set, shifted or left alone |
| `ClockLoop.ServedShift` | IEEE1588/ptp.c:74-98 | in numbers: whole seconds clear the sum and shift nothing; any other difference adds to it and shifts the clock by the error and a twentieth of the sum, except that within 500 ns, unless the error is 500 ns or more below zero, the shift of the report before is applied again |
| `ClockLoop.ServedDefined` | IEEE1588/ptp.c:86-90 | the arithmetic of a report is defined if and only if it is one of whole seconds, or the sum fits 32 bits and the correction does with both its signs |
| `ClockLoop.IntegratorSums` | IEEE1588/ptp.c:86-86 | after every run of fine reports the integrator is its start plus the sum of the errors |
| `ClockLoop.RegisterHolds` | IEEE1588/ttc_tsu/tsu_time.c:48-54 | after every run whose corrections fit 30 bits the register holds the correction of the latest report outside the dead band |
| `ClockLoop.Accounting` | IEEE1588/ptp.c:86-91 | over every run whose corrections fit 30 bits the clock has been shifted by the sum over all reports of the latest correction from outside the dead band: a report inside it applies the old correction once more |
| `ClockLoop.TuningStep` | IEEE1588/ptp.c:86-91 | in the closed loop a report outside the dead band leaves the error -trunc(I/20) and the integral I - trunc(I/20), within range again |
| `ClockLoop.Contracts` | IEEE1588/ptp.c:86-91 | along n such reports nothing overflows, and the integral keeps its sign, never grows, and strictly falls while it is 20 or more |
| `ClockLoop.DeadBandIsReached` | IEEE1588/ttc_tsu/tsu_time.c:48-49 | the reports until one falls into the dead band are at most 14 for each binary digit of the integral, and one more |
| `ClockLoop.DeadBandIsNear` | IEEE1588/ttc_tsu/tsu_time.c:48-49 | from every state in range that is within 435 reports |
| `ClockLoop.SkipMisses` | IEEE1588/ttc_tsu/tsu_time.c:48-49 | a report skipped with a correction of 500 ns or more in the register leaves the clock off by 250 ns or more before or after it |
| `ClockLoop.RestCondition` | IEEE1588/ttc_tsu/tsu_time.c:45-54 | the closed loop rests exactly when there is no error, the register holds no shift and the integral alone stays in the dead band |
| `ClockLoop.RestIsNeverReached` | IEEE1588/ttc_tsu/tsu_time.c:48-49 | as long as the 32-bit sum does not overflow, the loop is at rest after any number of reports if and only if it was to begin with |
| `ClockLoop.SkipKeepsRegion` | IEEE1588/ttc_tsu/tsu_time.c:48-49 | a skipped report keeps the loop in an explicit region of error, sum and register |
| `ClockLoop.TuneKeepsRegion` | IEEE1588/ttc_tsu/tsu_time.c:52-54 | so does one outside the dead band |
| `ClockLoop.RegionInRange` | IEEE1588/ttc_tsu/tsu_time.c:45-54 | in that region nothing overflows or is truncated, and after a skipped report the error is below 250 microseconds |
| `ClockLoop.LoopIsServed` | IEEE1588/ptp.c:70-99 | the loop's two steps are what the servo does in fine sync with a report within a second and with one across its boundary: it shifts the clock by what the error loses, or clears the integrator and leaves the clock alone |
| `ClockLoop.CrossedKeepsRegion` | IEEE1588/ptp.c:74-80 | so does a report across a second boundary, which clears the sum and keeps the register |
| `ClockLoop.PowerOnStaysInRange` | IEEE1588/ptp.c:72-91 | from power-on with any error below a second the loop never leaves the region, wherever reports cross a second boundary, and never loses error and shift together |
| `ClockLoop.PowerOnRest` | IEEE1588/ptp.c:72-91 | so from power-on with any error below a second it is ever at rest, wherever reports cross a second boundary, if and only if the first error is zero |
| `ClockLoop.TunedIsStale` | IEEE1588/ttc_tsu/tsu_time.c:48-54 | a report that leads straight into the dead band always leaves a correction other than zero in the register |
| `ClockLoop.StaleIff` | IEEE1588/ttc_tsu/tsu_time.c:48-49 | a loop in range sooner or later skips a report with a correction other than zero in the register if and only if it is not at rest |
| `ClockLoop.StaleForEver` | IEEE1588/ttc_tsu/tsu_time.c:48-49 | from power-on with any error but zero below a second, after every run of reports, there comes such a report unless further ones across a second boundary intervene |
| `ClockLoop.MissesForEver` | IEEE1588/ttc_tsu/tsu_time.c:48-54 | and so does an error of 250 ns or more |
| `ClockLoop.CycleStep` | IEEE1588/ttc_tsu/tsu_time.c:48-54 | a report outside the dead band and a skipped one turn the error into its opposite, less twice the twentieth of the integral |
| `ClockLoop.CyclesGrow` | IEEE1588/ttc_tsu/tsu_time.c:48-54 | along such cycles an error that is as large as an integral of its own sign changes sides every time and grows by twice the twentieth of the integral |
| `ClockLoop.TwoCyclesGrow` | IEEE1588/ttc_tsu/tsu_time.c:48-54 | over two such cycles the error strictly grows: ten times the new one is at least eleven times the old one less 38 |
| `ClockLoop.SwingsEnd` | IEEE1588/ttc_tsu/tsu_time.c:48-54 | so within the region no such swing lasts for 162 cycles |
| `ClockLoop.StaleCorrectionExample` | IEEE1588/ttc_tsu/tsu_time.c:48-49 | a first error of 1000 ns is corrected to -50 and then thrown off to -1100, one such cycle |
| `SlaveClock.ServesWhatIsReported` | IEEE1588/ptp_sync.c:397-397 | the report served after a Delay_Resp is the last one that the interpreter made |
| `SlaveClock.DefinedIff` | IEEE1588/ptp.c:86-90 | on every run of messages, whatever nanoseconds they carry, the arithmetic of interpreter and servo is defined if and only if every Delay_Resp meets the six inequalities and the differences since the last report of whole seconds, and their corrections, always fit 32 bits |
| `SlaveClock.TwoReportsFit` | IEEE1588/ptp.c:86-86 | a run of conforming messages with up to two Delay_Resps is always defined |
| `SlaveClock.ThreeResponsesOverflow` | IEEE1588/ptp.c:86-86 | three Delay_Resps with 999999999 ns, handled at the starts of any three seconds of their timestamps, make it undefined; where two of the seconds are two or more apart, the first report leaves the clock before the next is handled |
| `SlaveClock.SyncFollows` | IEEE1588/ptp.c:74-93 | on every defined run of messages the state machine is in fine sync exactly when some Delay_Resp was handled in the second of its timestamp, and until then it is never-synced before the first report and in coarse sync afterwards, with one less than the number of reports modulo 61 in its counter |
| `SlaveClock.SetSchedule` | IEEE1588/ptp.c:74-80 | while the run is defined and until a Delay_Resp is handled in its own second, the clock is set exactly by those whose number, counted from 0, is a multiple of 61 and whose seconds are positive, and afterwards by none; each time to the seconds stamped and, with a stamp below 10^9 ns, to the master's receipt time within a nanosecond, or with the local nanoseconds kept if that is the start of a second |
| `SlaveClock.SetReachesMaster` | IEEE1588/timesync.c:61-70 | the counter then shows the time set, plus what the writes took, if and only if 32 bits hold the seconds and the nanoseconds do not wrap; so within a nanosecond the master's time plus that |
| `SlaveClock.SecondsStayWrong` | IEEE1588/ptp.c:74-93 | after a Delay_Resp in its own second the clock is never set again, and while the run is defined a later message writes the adjustment register if and only if it is again one handled in its own second |
| `SlaveClock.LateSecondStays` | IEEE1588/ptp.c:74-93 | a Sync, a Follow_Up, a Delay_Resp in its own second, and one stamped ten seconds later: nothing is done about the ten seconds |
| `Crc32.ShiftLinear` | IEEE1588/gptp.c:98-98 | the conditional shift is linear over GF(2) |
| `Crc32.FeedIsShift` | IEEE1588/gptp.c:97-99 | feeding n bits one at a time is adding them to the register and shifting n times |
| `Crc32.TableStep` | IEEE1588/gptp.c:106-106 | eight shifts of any register are one table lookup of its low byte added to the rest shifted down |
| `Crc32.Calculator.FillTable` | IEEE1588/gptp.c:95-101 | the nested loops fill entry i with eight shifts of i |
| `Crc32.Calculator.EthernetCrc32` | IEEE1588/gptp.c:89-109 | on byte strings of any length, on the first call and later ones, the result is the bit-serial reflected CRC of section 3.2.9 of IEEE 802.3 |
| `Crc32.ConstantResidue` | IEEE1588/gptp.c:104-108 | appending its CRC low byte first gives every frame the same CRC |
| `Crc32.PolynomialIs` | IEEE1588/gptp.c:98-98 | the constant is the reflected polynomial of section 3.2.9 of IEEE 802.3, term by term |
| `Crc32.CheckValues` | IEEE1588/gptp.c:89-109 | the CRCs of no byte, of FF FF FF FF and of FF FF FF 7F are 0, FFFFFFFF and 12477CDF |
| `Crc32.ShiftInjective` | IEEE1588/gptp.c:98-98 | the register never forgets: different registers stay different after a shift |
| `Crc32.DetectsBursts` | IEEE1588/gptp.c:89-109 | every error burst of up to 32 bits, anywhere in a frame of any length, changes the CRC |
| `Crc32.OneBit` | IEEE1588/gptp.c:116-117 | splitting an index into byte and bit sets the bit of that index and no other of the 64 |
| `Crc32.Calculator.MacToHashTable` | IEEE1588/gptp.c:111-118 | whatever the table held, exactly one of its 64 bits is set afterwards: the one at the CRC's top six bits |
| `TxHandoff.InitialInv` | IEEE1588/netif/xemacpsif_dma.c:711-728 | the ring that initialisation leaves satisfies the hand-off invariant |
| `TxHandoff.HwKeepsInv` | IEEE1588/netif/xemacpsif_dma.c:349-404 | a hardware step at any moment of the driver's work keeps the invariant |
| `TxHandoff.DriverKeepsInv` | IEEE1588/netif/xemacpsif_dma.c:228-415 | every single write of sending and reclaiming keeps the invariant, whatever the hardware has done since the one before |
| `TxHandoff.HandoffIsSafe` | IEEE1588/netif/xemacpsif_dma.c:338-415 | under every interleaving the hardware never meets a used bit within a frame or a descriptor without a buffer, the "PBUFS not available" branch is never taken, and all the hardware has read is a prefix of what was sent |
| `TxHandoff.TransmitsFrames` | IEEE1588/netif/xemacpsif_dma.c:312-415 | under every interleaving the hardware has transmitted exactly the first m frames sent, whole and in order, plus a proper part of the next exactly while it is within one |
| `TxHandoff.StreamAt` | IEEE1588/netif/xemacpsif_dma.c:349-388 | the stream of descriptors that stands for a sequence of frames holds every buffer of every frame in its place, with its length, and marks exactly the frames' ends as last |
| `TxHandoff.FrameIsReady` | IEEE1588/netif/xemacpsif_dma.c:388-401 | whenever the transmitter finds a clear used bit, every descriptor up to the one marked last has its address, its length, its storage slot and a clear used bit |
| `TxHandoff.FirstMustBeLast` | IEEE1588/netif/xemacpsif_dma.c:389-401 | clearing the first used bit before the others would let a transmitter that has caught up run into a used bit within the frame |
| `TxHandoff.HwIdles` | IEEE1588/netif/xemacpsif_dma.c:258-267 | a transmitter that has read all that was published stands on a used bit and stays there, however far the driver is with the next frame |
| `TxHandoff.SlotsMatchSegment` | IEEE1588/netif/xemacpsif_dma.c:269-276 | between calls a storage slot is occupied exactly when its descriptor is in the hardware segment, with the same buffer |
| `TxHandoff.SlotIsFree` | IEEE1588/netif/xemacpsif_dma.c:351-354 | the slot of every descriptor that sending is about to write is empty |
| `TxHandoff.ReleasesOnlyFinished` | IEEE1588/netif/xemacpsif_dma.c:269-276 | a slot is emptied only when the hardware has read its frame to the end |
| `TxHandoff.ScanFindsDone` | IEEE1588/netif/xemacpsif_dma.c:250-251 | scanning used bits of first descriptors finds exactly the frames that the hardware has finished |
| `TxHandoff.ReclaimsAllFinished` | IEEE1588/netif/xemacpsif_dma.c:248-254 | reclaiming starts on exactly those descriptors, and ends when there are none |
| `TxHandoff.EverythingGoesOut` | IEEE1588/netif/xemacpsif_dma.c:401-413 | from every reachable state, wherever the driver stands, the hardware alone transmits all that was published in as many steps as descriptors are left |
| `TxHandoff.EverythingComesBack` | IEEE1588/netif/xemacpsif_dma.c:248-282 | a reclaim after that takes back every descriptor of the hardware segment, so that no buffer is held for ever |
| `TxDma.Transmitter.constructor` | IEEE1588/netif/xemacpsif_dma.c:711-728 | initialisation establishes the hand-off invariant and takes no reference |
| `TxDma.Transmitter.CountChain` | IEEE1588/netif/xemacpsif_dma.c:338-340 | the count is the chain's length |
| `TxDma.Transmitter.FrameIs` | IEEE1588/netif/xemacpsif_dma.c:338-381 | a chain makes a frame of its buffers in its order, each with its own length, or the longest that a descriptor is given if that is less |
| `TxDma.Transmitter.Describe` | IEEE1588/netif/xemacpsif_dma.c:349-381 | one turn of the loop leaves address, length, slot and reference of its buffer behind, not marked last, with the hardware running after every write |
| `TxDma.Transmitter.DescribeAll` | IEEE1588/netif/xemacpsif_dma.c:349-381 | the loop describes every buffer of the chain, takes one reference to each, and ends on the last one's descriptor |
| `TxDma.Transmitter.ClearOthers` | IEEE1588/netif/xemacpsif_dma.c:393-400 | the second loop clears the used bits of all descriptors but the first and publishes nothing |
| `TxDma.Transmitter.SgSend` | IEEE1588/netif/xemacpsif_dma.c:312-415 | a chain is sent if and only if it fits; if not, no descriptor, slot, count or reference changes; if so, exactly its frame is sent and each of its buffers has one more reference |
| `TxDma.Transmitter.HandOver` | IEEE1588/netif/xemacpsif_dma.c:388-408 | the used bits are cleared with the first one last, and the library never refuses the set, which is the one allocated: that failure branch is dead |
| `TxDma.Transmitter.ResetBd` | IEEE1588/netif/xemacpsif_dma.c:259-267 | the descriptor is used, without address, length and last mark again, with the wrap bit on the ring's last one only |
| `TxDma.Transmitter.DropSlot` | IEEE1588/netif/xemacpsif_dma.c:269-276 | the slot's one reference, to the buffer that was sent from it, is dropped, and the slot is empty |
| `TxDma.Transmitter.TakeBackAll` | IEEE1588/netif/xemacpsif_dma.c:256-280 | the loop drops exactly one reference for each descriptor of the batch |
| `TxDma.Transmitter.ProcessSentBds` | IEEE1588/netif/xemacpsif_dma.c:228-288 | it ends, the hardware segment shrinking each time round, with nothing finished left and at least what was finished before taken back; the references dropped are those of the descriptors taken back, each once, in the order sent |
| `TxDma.Transmitter.FreeOnlyTxPbufs` | IEEE1588/netif/xemacpsif_dma.c:894-908 | every slot is empty and each occupied one gave up its reference |
| `TxDma.Transmitter.CleanDmaTxDescs` | IEEE1588/netif/xemacpsif_dma.c:593-611 | the ring is as after initialisation |
| `TxDma.Transmitter.HandleTxErrors` | IEEE1588/netif/xemacpsif.c:483-505 | from any state between calls every reference held for the ring is dropped once, only the stack's remain, and the invariant holds with all descriptors free |
| `TxDma.Transmitter.LowLevelOutput` | IEEE1588/netif/xemacpsif.c:147-206 | with five descriptors or fewer free, and only then, at least what was finished is taken back first; the chain, unharmed by that, is sent exactly as it was handed in if and only if it fits then; the references dropped are those of the descriptors reclaimed and those taken are the chain's |
| `RxRing.Receives` | IEEE1588/netif/xemacpsif_dma.c:474-491 | the descriptor at the receiver's position is closed exactly when every buffer of the segment is filled, and else holds the segment's next buffer |
| `RxRing.CompletedIsGot` | IEEE1588/netif/xemacpsif_dma.c:533-536 | the filled descriptors found are exactly those that the hardware has filled |
| `RxRing.ArmKeepsRing` | IEEE1588/netif/xemacpsif_dma.c:474-491 | arming the first free descriptor appends its buffer to the segment and keeps the wrap bit on the last descriptor |
| `RxRing.FreeKeepsRing` | IEEE1588/netif/xemacpsif_dma.c:582-582 | moving the head past the emptied descriptors keeps what ring, slots and receiver agree on |
| `RxDma.Receiver.InitBd` | IEEE1588/netif/xemacpsif_dma.c:739-782 | one turn arms the next descriptor with the pool's next buffer, notes it in the slot, and leaves every earlier one alone |
| `RxDma.Receiver.InitDma` | IEEE1588/netif/xemacpsif_dma.c:733-783 | it succeeds exactly when the pool has a buffer for every descriptor; then descriptor i and slot i hold the pool's i-th, the last one wraps; otherwise the pool is used up and that many descriptors have been armed |
| `RxDma.Receiver.Enter` | IEEE1588/netif/xemacpsif_dma.c:451-479 | a descriptor that the library counts in and whose status is cleared stays closed to the hardware, which goes on filling the others |
| `RxDma.Receiver.Arm` | IEEE1588/netif/xemacpsif_dma.c:481-493 | the address write hands the buffer over with a cleared status, and a frame may fill it before its slot is written; afterwards segment and slots agree |
| `RxDma.Receiver.Refill` | IEEE1588/netif/xemacpsif_dma.c:451-493 | one buffer joins the segment's end, with frames arriving after every write and none into a buffer that is not the hardware's |
| `RxDma.Receiver.SetupRxBds` | IEEE1588/netif/xemacpsif_dma.c:417-495 | refilling ends with every descriptor armed or the pool empty, in a valid state either way |
| `RxDma.Receiver.Judge` | IEEE1588/netif/xemacpsif_dma.c:540-579 | the oldest filled buffer goes to the queue exactly if there is room, and is freed otherwise |
| `RxDma.Receiver.Batch` | IEEE1588/netif/xemacpsif_dma.c:538-583 | each descriptor of the batch gets exactly one verdict, in ring order, and the queue grows at its end by what fits |
| `RxDma.Receiver.RecvHandler` | IEEE1588/netif/xemacpsif_dma.c:531-584 | it ends with a verdict on every frame accepted, and the queue longer by those that fit; the hardware then has as many buffers as descriptors, or all that are neither queued nor with the stack; once it has none it never gets one, whatever the pool holds, and no frame is accepted again |
| `RxDma.Starve` | IEEE1588/netif/xemacpsif_dma.c:531-584 | the receive handler alone never refills again: one descriptor, one buffer, a queue of one: the frame goes up, its buffer comes back to the pool, and the next handler leaves the hardware without a buffer |
| `RxDma.Receiver.LowLevelInput` | IEEE1588/netif/xemacpsif.c:215-228 | the oldest queued buffer passes to the stack, with the contents it arrived with |
| `RxDma.FillingIsGood` | IEEE1588/netif/xemacpsif_dma.c:531-536 | an arriving frame overwrites no buffer that is queued, with the stack or already filled |
| `RxDma.JudgedIsGood` | IEEE1588/netif/xemacpsif_dma.c:560-578 | queueing or dropping keeps single ownership and the order of the frames kept |
| `RxDma.RingIsAlone` | IEEE1588/netif/xemacpsif_dma.c:493-493 | a buffer in the hardware segment is in it once, and neither queued nor with the stack |
| `RxDma.OwnersAreDisjoint` | IEEE1588/netif/xemacpsif_dma.c:417-591 | at every moment every buffer is in exactly one of hardware segment, queue, pool, stack and the driver's hand |
| `RxDma.InOrder` | IEEE1588/netif/xemacpsif_dma.c:572-578 | at every moment the frames handed up, followed by those queued, are the frames accepted so far, in order, less those dropped |
| `RxDma.FramesAreConserved` | IEEE1588/netif/xemacpsif_dma.c:531-584 | at every moment the frames accepted are those delivered, queued, waiting in the ring, or dropped: none is lost or doubled |
| `Ethernet.ConsumedOnce` | IEEE1588/netif/ethernet.c:83-255 | on every branch of length, tag and type the buffer is freed or handed to one upper layer exactly once, and read by the interpreter only before that |
| `Ethernet.RunConsumesOnce` | IEEE1588/netif/xemacpsif.c:259-321 | over every run of received frames, however short, the buffers consumed are as many as the buffers dequeued |
| `Ethernet.DroppedIff` | IEEE1588/netif/ethernet.c:93-139 | the frames freed for their length or tag are those of up to 14 bytes, and those with type 0x8100, where tags are known, of up to 18 bytes or of another VLAN |
| `Ethernet.UntaggedGoes` | IEEE1588/netif/ethernet.c:172-246 | each of IPv4, ARP, IPv6 and the interpreter sees an untagged frame if and only if the two bytes behind the addresses are 0800, 0806, 86DD or 88F7 and it is there, and then exactly what follows them |
| `Ethernet.TaggedGoes` | IEEE1588/netif/ethernet.c:117-246 | with a tag of the interface's own VLAN it is the two bytes behind the tag that count, and the interpreter sees nothing |
| `Ethernet.DriverGoes` | IEEE1588/netif/xemacpsif.c:286-317 | the driver treats frames of the types 0x88F7, 0x0800, 0x0806 and, where built in, 0x86DD as ethernet_input does, and frees all others |
| `Ethernet.PtpReachesInterpreter` | IEEE1588/gptp_hook.c:13-45 | the interpreter sees a frame that comes through the driver exactly when its outer type is 0x88F7 and something follows the header, and sees all of that |
| `Ethernet.SeenIff` | IEEE1588/netif/xemacpsif.c:286-317 | some layer above sees a received frame if and only if its outer type is PTP, IPv4, ARP or a supported IPv6, something follows the header, and IPv4 and ARP meet an interface with ARP |
| `Ethernet.TaggedIsDropped` | IEEE1588/netif/xemacpsif.c:286-317 | a VLAN-tagged frame is freed by the driver whatever it contains and whatever the build |
| `Ethernet.ParseInvertsPrint` | IEEE1588/netif/ethernet.c:115-142 | a printed frame holds its addresses, 8100 and the tag if there is one, its type and its payload, byte for byte; type and payload offset are recovered if and only if the receiver knows tags when there is one and an untagged frame does not claim the tag's type |
| `Ethernet.Ip4GetsThrough` | IEEE1588/netif/ethernet.c:172-190 | what one station prints as IPv4, tagged or not, the other hands to its IP layer byte for byte |
| `Ethernet.EthernetOutput` | IEEE1588/netif/ethernet.c:272-321 | the header is put in front of the untouched payload, or, exactly when there is no room, nothing changes |
| `Ethernet.NetIf.Classify` | IEEE1588/netif/ethernet.c:93-142 | the length and VLAN checks drop exactly the frames without payload behind their headers or of another VLAN, and find type and header length of the others |
| `Ethernet.NetIf.MarkDestination` | IEEE1588/netif/ethernet.c:148-170 | the multicast mark is set exactly for the IPv4 and IPv6 group prefixes, the broadcast mark exactly for the broadcast address |
| `Ethernet.NetIf.GptpProtocolHook` | IEEE1588/gptp_hook.c:29-45 | a PTP message is interpreted and then freed, anything else is freed |
| `Ethernet.NetIf.EthernetInput` | IEEE1588/netif/ethernet.c:83-255 | the goto-based code does to every frame what its fate says, and nothing else; it marks a frame that it does not drop as multicast or broadcast by its destination |
| `Ethernet.NetIf.XemacpsifInput` | IEEE1588/netif/xemacpsif.c:259-321 | an empty queue does nothing; a buffer is dispatched on its outer type, even when it is shorter than a header, and counted once |

## Left out

- PtpSync.Slave.Interpret: messages shorter than the fields it reads, which the source does not check for, are excluded by `Readable`.
- Tsu.Driver.Systick: says nothing of a counter that the shift would take below zero.
- ClockLoop.Servo.Process: requires of a fine report that the counter is past its first second or so, so that a shift cannot take it below zero, and of a coarse one that its nanoseconds are below a second, which PtpSync.ReportsTrackReceipt shows of every conforming run.
- SlaveClock.SetReachesMaster: requires a stamp below 10^9 ns, since what the register does with more is the device's affair.
- Timesync.Callbacks.CoarseTimeReceived: requires nanoseconds below a second; what the register does with more is the device's affair. So do the other callbacks that set the clock.
- Timesync.Callbacks.PpsReceived: requires that the filter's subtraction fits 32 bits, which Timesync.AverageStaysBounded shows while no error is reported from outside.
- SlaveClock.SyncFollows: says nothing of a run whose 32-bit sum has overflowed, since C leaves that undefined; SlaveClock.DefinedIff says which those are.
- RxDma.Receiver.RecvHandler: terminates on the assumption that finitely many frames arrive during the call, as the source's loop does.
- Crc32.ConstantResidue: the residue is given as a formula, not as a number.
- Ethernet.NetIf.XemacpsifInput: requires that the buffer's memory holds 14 bytes from the payload on; the source checks nothing before it reads the type.
- Frames longer than one receive descriptor, and `pbuf_realloc`, which trims a buffer to its frame: a frame is one buffer here.
- The hardware reads the two words of a descriptor in one step: a driver's write between its two reads is not modelled.
- The unsigned 8-bit width of lwIP's reference counts.
- `free_txrx_pbufs` and `HandleEmacPsError`, and `reset_dma`, which moves ring pointers inside the library.
- `init_dma` going on after an error at its caller, and the parked priority queues.
- `ttc_timer.c`: vendor timer setup; it only calls back.
- Registers, caches, address translation, interrupt controller: foreign calls.
- lwIP's own layers above `ethernet_input`, and the ring library's internals beyond the assumptions above.
- Optional builds: blocking transmission, jumbo frames, PPPoE, FreeRTOS.
- `ptp_calc_prop_delay`, `ptp_clock_offset`, the first interpreter and other code that is compiled out or never called.
- The `dts` field, written and never read.
- Housekeeping, logging, socket binding, multicast joins.
- The multicast entry mask of `xemacpsif_mac_filter_update`.
