# Verified models of an embedded board support package and two programs

This project models, in Dafny, the parts of the repository whose correctness depends on more than one
function at a time, and proves what they are for. `dafny verify dfyconfig.toml` checks it.

| files | what they model |
|---|---|
| `Ring`, `UartMachine`, `UartSafety`, `UartCalls`, `UartDriver` | the JTAG UART fast driver: two ring buffers shared, without a lock, by two threads, an interrupt routine and a device |
| `ProbeTable`, `HashTable` | the linear-probing hash table with tombstones and resizing |
| `AesTables`, `Gf256`, `Fips197`, `AesEncrypt` | AES-128 encryption in software, against FIPS 197 |
| `AlarmTime`, `Alarms` | alarms over a wrapping 32-bit tick counter |
| `Numerals`, `HexWords`, `LogPrintf`, `LogDirectives`, `LogPrinter`, `AltPrintf` | two small printf implementations |
| `WallClock` | the wall clock over the tick counter |
| `FdPool`, `FdTable` | file descriptors with exclusive locks |
| `Heap`, `CallGraph`, `Profiler` | the heap break, the slab allocator and the profiler's call graph |
| `Words`, `Errno`, `Wrappers` | the 32-bit word, error numbers and an option type |

Code that changes state is modelled as classes and methods with the loops of the source, proved against
functions on values; the theorems are lemmas about those functions and about whole runs.

**The driver.** `UartMachine` is a step system: every access of a thread to `rx_in`, `rx_out`, `tx_in`,
`tx_out` or `irq_enable` is a step, memcpy is one step a byte, and the device and the host act between
any two steps. One interrupt routine invocation excludes thread steps but not the device. Ghost sequences
record what the host sent, what callers were given, what was accepted and what the host received.
`UartDriver` has the source's methods; each of their accesses appends a step to a ghost history, so that
every execution is a run of the machine and the theorems about runs apply to it. The buffer length is any
number from 2 up.

**Results that are not what the documentation says.** The code is modelled as it is; lemmas below give
an input for each failure and the exact condition under which the code does what is promised.

* A delay of 2^32 - 1 ticks ends at the next tick unless the counter is at its last value
  (`alt_alarm_start.c:82-92` computes the current count). With a period of more than one tick the second
  run of such an alarm comes one tick early, and with a period of one tick it stops for 2^32 ticks when the
  counter wraps.
* `settimeofday` multiplies in 32 bits and `gettimeofday` in 64, so an immediate get returns the set time
  only when the product has wrapped a multiple of 15625 times (or at time zero, by the clamp). The tick
  counter is a 32-bit one too: when it wraps, at every rate above one tick a second, the clock falls back,
  by 49.7 days at this system's rate of 1000. At rates that neither divide a million nor exceed it, it also
  runs backwards in between.
* `alt_fd_lock` grants a lock that is said to be exclusive without looking at the descriptor at
  `alt_max_fd`. `close` of a standard descriptor does not unlock it, although the comment of
  `alt_fd_lock` says that close does.
* The comment of `sbrk` says that it does no bounds checking; the code checks a limit. The check fails
  when pointer and increment wrap around, which the memory map of this system rules out.

## Model

| member | source | states |
|---|---|---|
| `UartSafety.ReceiveIsFifo` | Lab9/software/lab9_app_bsp/drivers/src/altera_avalon_jtag_uart_read.c:120-142 | in every state of every interleaving of reader, interrupt routine and device, what the host sent is what callers were given, then the ring, then the device FIFO, in order; the ring holds at most LEN - 1 bytes; the run a memcpy is copying is the oldest part of the ring and nothing overwrites the rest of it |
| `UartSafety.TransmitIsFifo` | Lab9/software/lab9_app_bsp/drivers/src/altera_avalon_jtag_uart_write.c:100-127 | in every such state, what callers had accepted is what the host received, then the device FIFO, then the ring, in order; the run a memcpy fills, sized from a stale tx_out, stays clear of the ring and leaves one slot free |
| `UartSafety.NoLostWakeup` | Lab9/software/lab9_app_bsp/drivers/src/altera_avalon_jtag_uart_init.c:156-194 | in every state, a non-empty transmit ring has WE set and a receive ring with room has RE set, unless a call still owes its enable step, and a call that owes it is before that step; the device has the same bits unless a thread, with interrupts disabled, is about to write them |
| `UartSafety.NoStepFails` | Lab9/software/lab9_app_bsp/drivers/src/altera_avalon_jtag_uart_init.c:132-184 | no step that can be taken in a reachable state goes outside a buffer |
| `UartSafety.InvAlways` | Lab9/software/lab9_app_bsp/drivers/src/altera_avalon_jtag_uart_init.c:66-197 | the invariant over rings, thread positions, snapshots, masks and enable bits holds in every state of every run |
| `UartSafety.StepKeepsInv` | Lab9/software/lab9_app_bsp/drivers/src/altera_avalon_jtag_uart_read.c:120-195 | each step of each party succeeds and keeps that invariant |
| `UartCalls.ReadReturns` | Lab9/software/lab9_app_bsp/drivers/src/altera_avalon_jtag_uart_read.c:115-203 | for every call of read in every run, a positive result counts the bytes stored, which are exactly those that left the queue during the call and never more than asked for; otherwise nothing left the queue and the result is the error for the mode; fewer come back than asked for only when the call found the ring empty after the last of them, and a blocking call gives up only when it found it empty with the host away past the timeout |
| `UartCalls.WriteReturns` | Lab9/software/lab9_app_bsp/drivers/src/altera_avalon_jtag_uart_write.c:100-214 | for every call of write in every run, a positive result is the length of the prefix of the caller's bytes that joined the queue; otherwise nothing joined it and the result is the error for the mode; fewer than all joined only when the call found the ring full after the last of them, and a blocking call gives up only when it also found the host inactive |
| `UartCalls.ReaderWaitsIff` | Lab9/software/lab9_app_bsp/drivers/src/altera_avalon_jtag_uart_read.c:171-178 | in every state of every run, a test of the wait loop of read goes on exactly while the ring is empty and the host within its timeout, and the test after the loop gives up exactly when the ring is still empty |
| `UartCalls.WriterWaitsIff` | Lab9/software/lab9_app_bsp/drivers/src/altera_avalon_jtag_uart_write.c:177-188 | likewise the wait loop of write goes on exactly while the ring is full and the host within its timeout, and the call gives up after it exactly when the host has been inactive |
| `UartCalls.ReaderAlwaysKnows` | Lab9/software/lab9_app_bsp/drivers/src/altera_avalon_jtag_uart_read.c:120-178 | in every state of every run, what the place of the reader says about what its call found: a snapshot of rx_in equal to rx_out, the wait loop and a short result all mean a moment in this call at which the ring was empty with as much delivered |
| `UartCalls.WriterAlwaysKnows` | Lab9/software/lab9_app_bsp/drivers/src/altera_avalon_jtag_uart_write.c:100-188 | likewise for the writer and a full ring |
| `UartCalls.NoRoomIffFull` | Lab9/software/lab9_app_bsp/drivers/src/altera_avalon_jtag_uart_write.c:106-117 | the three ways to compute n give zero exactly for a full ring |
| `UartCalls.HostInactiveCounts` | Lab9/software/lab9_app_bsp/drivers/src/altera_avalon_jtag_uart_init.c:203-225 | in every state of every run, host_inactive is the number of expiries since the last one that found the host active, up to INT_MAX - 2 |
| `UartSafety.IsrPassesBounded` | Lab9/software/lab9_app_bsp/drivers/src/altera_avalon_jtag_uart_init.c:117-196 | one invocation of the interrupt routine makes at most as many passes of its outer loop as there were free receive slots, used transmit slots and enabled interrupts when it began, however fast the host works meanwhile |
| `UartSafety.IsrStepWorks` | Lab9/software/lab9_app_bsp/drivers/src/altera_avalon_jtag_uart_init.c:125-195 | no step inside the routine increases that measure, and the step that acts on a pending interrupt decreases it |
| `UartSafety.TurnedOffIff` | Lab9/software/lab9_app_bsp/drivers/src/altera_avalon_jtag_uart_init.c:156-194 | in every step of every run the receive interrupt is turned off exactly by the routine when the ring is full and the last byte taken left more in the device, and the transmit interrupt exactly by the routine when the device has room and the ring is empty |
| `UartSafety.RingsLeaveOneFree` | Lab9/software/lab9_app_bsp/drivers/src/altera_avalon_jtag_uart_init.c:137-139 | neither ring ever holds more than LEN - 1 bytes |
| `UartSafety.PublishOutKeepsInv` | Lab9/software/lab9_app_bsp/drivers/src/altera_avalon_jtag_uart_read.c:137-140 | moving rx_out past a copied run keeps the invariant, so that what is delivered is the oldest bytes of the ring |
| `UartSafety.PublishInKeepsInv` | Lab9/software/lab9_app_bsp/drivers/src/altera_avalon_jtag_uart_write.c:123-126 | moving tx_in past a filled run keeps the invariant, so that what the ring gains is the caller's next bytes |
| `UartSafety.TxSnapshotKeepsInv` | Lab9/software/lab9_app_bsp/drivers/src/altera_avalon_jtag_uart_write.c:106-120 | each of the three cases for n, cut to the count, leaves tx_in short of tx_out |
| `UartSafety.RxSnapshotKeepsInv` | Lab9/software/lab9_app_bsp/drivers/src/altera_avalon_jtag_uart_read.c:122-134 | both cases for n give a run of bytes that are in the ring |
| `Ring.Push` | Lab9/software/lab9_app_bsp/drivers/src/altera_avalon_jtag_uart_init.c:149-150 | storing at in and advancing it appends one byte to the contents of a ring that is not full |
| `Ring.Pop` | Lab9/software/lab9_app_bsp/drivers/src/altera_avalon_jtag_uart_init.c:176-178 | advancing out removes the oldest byte |
| `Ring.PopRun` | Lab9/software/lab9_app_bsp/drivers/src/altera_avalon_jtag_uart_read.c:136-140 | a run that does not wrap is the oldest part of the contents and advancing out past it removes exactly it |
| `Ring.PushRun` | Lab9/software/lab9_app_bsp/drivers/src/altera_avalon_jtag_uart_write.c:122-126 | a run that does not wrap and leaves one slot free is appended by advancing in past it |
| `Ring.FullWhenNextIsOut` | Lab9/software/lab9_app_bsp/drivers/src/altera_avalon_jtag_uart_init.c:137-139 | the ring is full, with LEN - 1 bytes, exactly when the slot after in is out |
| `UartDriver.JtagUart.constructor` | Lab9/software/lab9_app_bsp/drivers/src/altera_avalon_jtag_uart_init.c:66-100 | a new driver is an initial state of the machine, with an empty history; its timeout is INT_MAX exactly when the alarm could not be started |
| `UartDriver.JtagUart.Interrupt` | Lab9/software/lab9_app_bsp/drivers/src/altera_avalon_jtag_uart_init.c:106-197 | the interrupt routine's code ends, with the device active between any two accesses, and adds to the history one complete invocation of the machine's routine: it begins by entering it, is in it in every state between, and ends idle with a read of the control register that shows no interrupt |
| `UartDriver.JtagUart.ReceivePart` | Lab9/software/lab9_app_bsp/drivers/src/altera_avalon_jtag_uart_init.c:125-167 | the receive branch ends at the transmit branch or the loop head with strictly less work left |
| `UartDriver.JtagUart.TransmitPart` | Lab9/software/lab9_app_bsp/drivers/src/altera_avalon_jtag_uart_init.c:169-195 | the transmit branch ends at the loop head, with less work left when the interrupt is new |
| `UartDriver.JtagUart.Timeout` | Lab9/software/lab9_app_bsp/drivers/src/altera_avalon_jtag_uart_init.c:203-225 | the timer callback is one timer step of the machine |
| `UartDriver.JtagUart.Read` | Lab9/software/lab9_app_bsp/drivers/src/altera_avalon_jtag_uart_read.c:100-203 | the code of read, preempted between any two accesses to shared variables, is one call of the machine's read and its result says how many delivered bytes are at the start of the buffer; a short or failed call, and one still waiting, found the ring empty during the call after its last byte, and a blocking one that failed found it so with the host away past its timeout |
| `UartDriver.JtagUart.Write` | Lab9/software/lab9_app_bsp/drivers/src/altera_avalon_jtag_uart_write.c:83-215 | the code of write, preempted likewise, is one call of the machine's write and a positive result is the accepted prefix; a short or failed call, and one still waiting, found the ring full during the call after its last byte, and a blocking one that is short found the host inactive |
| `UartDriver.JtagUart.SetTimeLimit` | Lab9/software/lab9_app_bsp/drivers/src/altera_avalon_jtag_uart_ioctl.c:60-68 | a driver with its alarm never stores INT_MAX, so that INT_MAX always means that there is no alarm, and a timeout out of range leaves the host connected |
| `UartDriver.JtagUart.IsConnected` | Lab9/software/lab9_app_bsp/drivers/src/altera_avalon_jtag_uart_ioctl.c:70-77 | the host counts as connected exactly while the idle count is below the timeout, and always when the timeout is the largest one |
| `HashTable.LPHashTable.constructor` | Linearprobe.cpp:9-22 | an empty table of the size found for the one asked for, or for 17 |
| `HashTable.LPHashTable.FindIndex` | Linearprobe.cpp:99-115 | -1 exactly when no occupied slot holds the key; otherwise the first slot in probe order that does; the loop ends |
| `HashTable.LPHashTable.Insert` | Linearprobe.cpp:73-86 | exactly one pair joins the multiset, across a resize as well, and the table stays valid; the size changes exactly when the table is due for it; a key that was absent extends the map |
| `HashTable.LPHashTable.Place` | Linearprobe.cpp:80-85 | the probe loop ends at the first free slot from the key's home and only that slot and its mark change |
| `HashTable.LPHashTable.Rehash` | Linearprobe.cpp:172-181 | every pair is moved and the marks stand exactly where pairs do |
| `HashTable.LPHashTable.ResizeTable` | Linearprobe.cpp:160-185 | the multiset of pairs is unchanged, the size is the one found for twice the old one, and no tombstone is left |
| `HashTable.LPHashTable.Remove` | Linearprobe.cpp:88-97 | the first pair in probe order with the key goes, or nothing does; the probe chains of all other keys stay unbroken; a map loses exactly the key |
| `HashTable.LPHashTable.Find` | Linearprobe.cpp:117-124 | the value of the first pair in probe order with the key, the default when there is none, and the map's value when keys are unique |
| `HashTable.LPHashTable.KeyExists` | Linearprobe.cpp:139-143 | true exactly when some pair has the key |
| `HashTable.LPHashTable.Index` | Linearprobe.cpp:126-137 | the first slot in probe order of the key, after adding the default exactly when the key was absent; otherwise the table is as it was |
| `HashTable.LPHashTable.Assign` | Linearprobe.cpp:126-137 | storing through the reference replaces the value of the first pair with the key, or adds the pair when there is none, and updates the map at the key, across tombstones and resizes |
| `ProbeTable.FillKeepsChains` | Linearprobe.cpp:81-85 | filling the first free slot on a key's path keeps every chain marked |
| `ProbeTable.EmptyKeepsChains` | Linearprobe.cpp:92-96 | emptying a slot without clearing its mark keeps every chain marked |
| `ProbeTable.StopsOnPath` | Linearprobe.cpp:105-113 | a slot that the search has not passed when it stops at an unmarked slot has that slot on its path |
| `ProbeTable.ProbeOrder` | Linearprobe.cpp:110 | probe order is up by one slot at a time and around the end: a slot comes before another exactly when fewer steps from the home reach it |
| `ProbeTable.EmptySlotExists` | Linearprobe.cpp:81-83 | with fewer pairs than slots there is a free slot |
| `ProbeTable.PairsOfUpdate` | Linearprobe.cpp:84-95 | replacing one slot changes the multiset by the old and the new pair of that slot |
| `HashTable.AssignMap` | Linearprobe.cpp:127-137 | finding or adding a key and replacing its value is one map update |
| `HashTable.RemoveAtMap` | Linearprobe.cpp:91-95 | deleting the pair at a slot removes its key from the map |
| `AesEncrypt.Encrypt` | Lab9/software/lab9_app/main.c:196-226 | the stored words are the packed cipher of FIPS 197 of the parsed message under the parsed key, the key words are the packed key, and the inverse cipher of the one under the other is the message |
| `AesEncrypt.EncryptedWordsDecrypt` | Lab9/software/lab9_app/main.c:222-225 | from the stored words alone the inverse cipher recovers the parsed message, for every pair of inputs |
| `AesEncrypt.EncryptState` | Lab9/software/lab9_app/main.c:210-220 | the ten rounds on the state array compute section 5.1 of FIPS 197 |
| `AesEncrypt.KeyExpansion` | Lab9/software/lab9_app/main.c:96-129 | the loop fills the whole schedule of section 5.2, which ScheduleByFormula gives byte by byte |
| `AesEncrypt.NextWord` | Lab9/software/lab9_app/main.c:122-125 | the four stores of one pass, given the feedback word, extend the schedule by one word and leave the earlier ones |
| `AesEncrypt.FeedbackComputed` | Lab9/software/lab9_app/main.c:113-121 | rotating, substituting and adding rcon is the feedback of section 5.2 |
| `AesEncrypt.RotWord` | Lab9/software/lab9_app/main.c:78-86 | the in-place rotation is RotWord of section 5.2 |
| `AesEncrypt.SubWord` | Lab9/software/lab9_app/main.c:88-94 | the in-place loop is SubWord of section 5.2 |
| `AesEncrypt.SubBytes` | Lab9/software/lab9_app/main.c:179-185 | the in-place loop is section 5.1.1 |
| `AesEncrypt.ShiftRows` | Lab9/software/lab9_app/main.c:155-177 | the three in-place row rotations, which go in two directions, are section 5.1.2 |
| `AesEncrypt.MixColumns` | Lab9/software/lab9_app/main.c:139-152 | the table look-ups on a copy compute section 5.1.3 |
| `AesEncrypt.AddRoundKey` | Lab9/software/lab9_app/main.c:131-137 | the in-place loop adds sixteen bytes of the schedule |
| `AesEncrypt.StoreWords` | Lab9/software/lab9_app/main.c:222-225 | the four words are the packed bytes, first byte highest |
| `AesEncrypt.PackedBytes` | Lab9/software/lab9_app/main.c:222-225 | the top byte of a word is the first byte of its column, and so on down |
| `AesEncrypt.UnpackOfPack` | Lab9/software/lab9_app/main.c:222-225 | the bytes can be read back from the words |
| `AesEncrypt.CharsToHexReadsDigits` | Lab9/software/lab9_app/main.c:45-76 | two hexadecimal digits of either case read as the byte that they write |
| `AesEncrypt.ParseOfText` | Lab9/software/lab9_app/main.c:203-206 | the 32 digits that write a block, high digit first and in any mixture of cases, are read as the block |
| `Fips197.InvCipherOfCipher` | Lab9/software/lab9_app/main.c:210-220 | the inverse cipher of section 5.3, built from aes_invsbox and the gf_mul columns, recovers every block under every key |
| `Fips197.CipherOfInvCipher` | Lab9/software/lab9_app/main.c:210-220 | every block is the cipher of its inverse cipher, so that each key permutes the blocks |
| `Fips197.RoundInverts` | Lab9/software/lab9_app/main.c:211-217 | an inverse round undoes a round with the same round key, both ways |
| `Fips197.MixColumnsInverts` | Lab9/software/lab9_app/main.c:139-152 | the columns 09, 0b, 0d, 0e invert the columns 02, 03, both ways |
| `Fips197.ShiftRowsInverts` | Lab9/software/lab9_app/main.c:155-177 | the row shifts invert, both ways |
| `Fips197.SubBytesInverts` | Lab9/software/lab9_app/main.c:179-185 | the substitutions invert, both ways |
| `Fips197.ShiftRowsByFormula` | Lab9/software/lab9_app/main.c:155-177 | the shifted bytes are those of the formula of section 5.1.2, by row and column |
| `Fips197.ScheduleByFormula` | Lab9/software/lab9_app/main.c:78-129 | the schedule byte by byte, from the S-box, exclusive or and powers of x alone: the first four words are the key; each later byte adds the one four words back and the one a word back, which at the start of a round key is the next byte of that word, substituted, plus a power of x in the first |
| `Fips197.RotWordByFormula` | Lab9/software/lab9_app/main.c:78-86 | byte r of a rotated word is the byte after it |
| `Fips197.CipherByFormula` | Lab9/software/lab9_app/main.c:210-220 | the cipher byte by byte, from the S-box, field multiplication, exclusive or and the bytes of the schedule alone: the eleven states of section 5.1, with the mixing in nine rounds and without it in the last |
| `Fips197.RoundKeyDeterminesSchedule` | Lab9/software/lab9_app/main.c:107-127 | two schedules that agree in any one round key are equal in all 176 bytes and come from the same key |
| `Fips197.RconPowers` | Lab9/software/lab9_app/aes.h:190-192 | the round constants are the successive powers of x |
| `Gf256.GfMulIsMultiplication` | Lab9/software/lab9_app/aes.h:54-183 | each column of gf_mul holds the products of section 4.2 by 02, 03, 09, 0b, 0d and 0e |
| `Gf256.SboxIsAffineInverse` | Lab9/software/lab9_app/aes.h:8-25 | each entry of aes_sbox is the affine map of the multiplicative inverse |
| `Gf256.InvSboxOfSbox` | Lab9/software/lab9_app/aes.h:28-45 | aes_invsbox undoes aes_sbox |
| `Gf256.SboxOfInvSbox` | Lab9/software/lab9_app/aes.h:28-45 | aes_sbox undoes aes_invsbox |
| `Gf256.TimesLinear` | Lab9/software/lab9_app/aes.h:54-183 | multiplication distributes over addition |
| `Gf256.MixInverts` | Lab9/software/lab9_app/aes.h:54-183 | on one column the two matrices of sections 5.1.3 and 5.3.3 are inverse, both ways |
| `AlarmTime.StartIsExact` | Lab9/software/lab9_app_bsp/HAL/src/alt_alarm_start.c:80-98 | at every clock value, the fields first expire n + 1 ticks later, and not before, exactly when n is not the whole range of the counter or the counter is at its last value; otherwise they expire at the next tick |
| `AlarmTime.WholeRangeRunsAtOnce` | Lab9/software/lab9_app_bsp/HAL/src/alt_alarm_start.c:82-92 | an input for which they do not: n = 2^32 - 1 at time 0 |
| `AlarmTime.StartStandsFor` | Lab9/software/lab9_app_bsp/HAL/src/alt_alarm_start.c:80-98 | the wrapped time and the flag stand for the deadline on an unbounded clock |
| `AlarmTime.ExpiresWhenDue` | Lab9/software/lab9_app_bsp/HAL/src/alt_tick.c:109-119 | a tick makes the callback exactly when it is the one that meets the deadline, whatever has wrapped, and otherwise the fields still stand for it |
| `AlarmTime.RenewedStandsFor` | Lab9/software/lab9_app_bsp/HAL/src/alt_tick.c:128-139 | adding the period gives fields that stand for the next deadline |
| `AlarmTime.FirstExpiry` | Lab9/software/lab9_app_bsp/HAL/src/alt_tick.c:100-119 | examined at every tick, fields that stand for a deadline first expire at its tick and at no other |
| `AlarmTime.Periodic` | Lab9/software/lab9_app_bsp/HAL/src/alt_tick.c:119-139 | every deadline of a callback that always returns c, from every first deadline: first + k * c, but for a late alarm with c = 1, whose deadlines move by 2^32 once the counter wraps |
| `AlarmTime.StartedAlarmIsPeriodicIff` | Lab9/software/lab9_app_bsp/HAL/src/alt_alarm_start.c:80-98 | an alarm started with a delay of n at clock T runs at exactly T + n + 1 + k * c for every k if and only if n is not the whole range of the counter or the counter is at its last value |
| `AlarmTime.NeverDriftsIff` | Lab9/software/lab9_app_bsp/HAL/src/alt_tick.c:119-139 | from every first deadline, the runs of a callback that always returns c are evenly spaced for ever exactly when that deadline is not late |
| `AlarmTime.NextRunIff` | Lab9/software/lab9_app_bsp/HAL/src/alt_tick.c:119-139 | each run is one period after the one before, except exactly at two places: the first gap of a late alarm with c > 1, and the gap before the counter wraps of one with c = 1 |
| `AlarmTime.RunsInOrder` | Lab9/software/lab9_app_bsp/HAL/src/alt_tick.c:119-139 | successive runs are at increasing ticks |
| `AlarmTime.LateAlarmSkipsTheWrap` | Lab9/software/lab9_app_bsp/HAL/src/alt_tick.c:128-139 | an alarm started with n = 2^32 - 1 and a period of one tick runs at every tick until the counter is at its last value and then not for 2^32 ticks |
| `AlarmTime.TickKeepsSchedule` | Lab9/software/lab9_app_bsp/HAL/src/alt_tick.c:109-140 | at each tick an alarm either stays on its schedule, its runs so far being exactly at their ticks, or ends because its callback returned zero |
| `AlarmTime.RunsSoFar` | Lab9/software/lab9_app_bsp/HAL/src/alt_tick.c:100-141 | the runs made by an alarm are exactly those whose ticks have come |
| `AlarmTime.StartedAlarmRuns` | Lab9/software/lab9_app_bsp/HAL/src/alt_tick.c:91-141 | over any number of ticks after an alarm was started at T with delay n, and for any callback, the ticks of its callbacks are RunsAt(Start(n, T), ...) up to the clock, and up to the first that returns zero |
| `AlarmTime.TicksKeepSchedule` | Lab9/software/lab9_app_bsp/HAL/src/alt_tick.c:104-140 | over any number of ticks an alarm keeps its first deadline and its callback and is on its schedule, or has ended on it |
| `AlarmTime.TickRuns` | Lab9/software/lab9_app_bsp/HAL/src/alt_tick.c:104-140 | one tick keeps first deadline and callback, adds itself to the runs exactly if it meets the deadline, and ends the alarm exactly when the callback then returns zero |
| `Alarms.AlarmSystem.AlarmStart` | Lab9/software/lab9_app_bsp/HAL/src/alt_alarm_start.c:64-112 | the alarm joins the head of the list with the right deadline, or the error and nothing changes; no other alarm is touched |
| `Alarms.AlarmSystem.AlarmStop` | Lab9/software/lab9_app_bsp/HAL/src/alt_tick.c:66-73 | the alarm leaves the ring and points to itself, the ring stays linked, the other alarms are untouched and stay on schedule; stopping it again does nothing |
| `Alarms.AlarmSystem.Examine` | Lab9/software/lab9_app_bsp/HAL/src/alt_tick.c:104-140 | the body of the loop changes one alarm as its record says, which keeps first deadline and callback and records a run exactly when the tick meets the deadline, and unlinks it exactly when it ends |
| `Alarms.AlarmSystem.Tick` | Lab9/software/lab9_app_bsp/HAL/src/alt_tick.c:87-148 | one tick examines every registered alarm exactly once although alarms are unlinked on the way; each keeps its first deadline and callback and runs exactly when its deadline is met; the survivors keep their order and every one is on its schedule |
| `Alarms.SurvivorStays` | Lab9/software/lab9_app_bsp/HAL/src/alt_tick.c:123-126 | an alarm that is kept is one that did not end |
| `Alarms.SurvivorPlace` | Lab9/software/lab9_app_bsp/HAL/src/alt_tick.c:91-141 | every alarm that did not end is kept, after those before it |
| `LogPrintf.IntegerReadsBack` | Lab9/software/lab9_app_bsp/HAL/src/alt_log_printf.c:206-297 | for every word, width, padding, base and sign, the text reads back as the value, the least signed one included, its length is max(width, digits + sign) and it has no other leading zeros |
| `LogPrintf.WidthIsRead` | Lab9/software/lab9_app_bsp/HAL/src/alt_log_printf.c:170-202 | a width written in decimal, with or without a zero flag, is the width of the field for every conversion letter; a point, a precision and l after it do not change it |
| `LogPrintf.EscapedIsLiteral` | Lab9/software/lab9_app_bsp/HAL/src/alt_log_printf.c:129-163 | text whose percent signs are doubled is printed as it is, before any rest of a format |
| `LogDirectives.IntegerDirective` | Lab9/software/lab9_app_bsp/HAL/src/alt_log_printf.c:204-317 | for every word, width, zero flag, precision and l: %d and %i print the signed value, %u, %o, %x and %X the unsigned one in base 10, 8, 16 and 16, with lower-case and upper-case letters; the text reads back as the value, is as wide as asked for, and is filled up with zeros after the sign or spaces before it |
| `LogDirectives.OtherDirective` | Lab9/software/lab9_app_bsp/HAL/src/alt_log_printf.c:319-336 | %c prints the low byte of its argument and %s the string, with spaces before it up to the width; any other letter, and a percent sign after flags, prints nothing and takes no argument |
| `LogDirectives.UnfinishedDirective` | Lab9/software/lab9_app_bsp/HAL/src/alt_log_printf.c:129-202 | a directive that the format ends in prints nothing |
| `LogPrinter.Port.PrivatePrintf` | Lab9/software/lab9_app_bsp/HAL/src/alt_log_printf.c:114-341 | the state machine sends what the grammar of formats says, for every format and every argument list |
| `LogPrinter.Port.PrintInteger` | Lab9/software/lab9_app_bsp/HAL/src/alt_log_printf.c:206-297 | sign, padding and digits come out as the integer's text |
| `LogPrinter.Port.CountDigits` | Lab9/software/lab9_app_bsp/HAL/src/alt_log_printf.c:248-255 | the number of digits of the shortest numeral and the place value of the first |
| `LogPrinter.CountStep` | Lab9/software/lab9_app_bsp/HAL/src/alt_log_printf.c:251-255 | the place value never overflows 32 bits and counts one more digit of the numeral |
| `LogPrinter.Port.PrintDigits` | Lab9/software/lab9_app_bsp/HAL/src/alt_log_printf.c:281-297 | dividing by falling place values sends the shortest numeral |
| `LogPrinter.Port.PrintSign` | Lab9/software/lab9_app_bsp/HAL/src/alt_log_printf.c:257-279 | the sign goes before zeros and after spaces |
| `LogPrinter.Port.RepChar` | Lab9/software/lab9_app_bsp/HAL/src/alt_log_printf.c:106-110 | nothing for a count that is not positive |
| `LogPrinter.Port.FlagChar` | Lab9/software/lab9_app_bsp/HAL/src/alt_log_printf.c:167-195 | the running width is that of the flags read so far |
| `LogPrinter.WidthExtends` | Lab9/software/lab9_app_bsp/HAL/src/alt_log_printf.c:171-191 | one more flag character changes the width as the two counters do |
| `Numerals.NumeralReads` | Lab9/software/lab9_app_bsp/HAL/src/alt_log_printf.c:248-297 | a shortest numeral reads back as its number and starts with a zero only for zero |
| `Numerals.LargestPlaceFirst` | Lab9/software/lab9_app_bsp/HAL/src/alt_log_printf.c:281-297 | the digit of the largest place followed by the rest is the numeral of a fixed length |
| `Numerals.NumeralIsPlaces` | Lab9/software/lab9_app_bsp/HAL/src/alt_log_printf.c:248-255 | a numeral of n digits is that of a number from base^(n-1) up to base^n |
| `AltPrintf.PrintersAgree` | Lab9/software/lab9_app_bsp/HAL/src/alt_printf.c:60-128 | on every format whose directives are all of the kind that both printers treat alike they print the same characters, %x by shifting and by dividing; a sufficient condition |
| `AltPrintf.AgreeAfterIff` | Lab9/software/lab9_app_bsp/HAL/src/alt_printf.c:66-124 | those directives are exactly the ones after which the printers agree whatever such format follows |
| `AltPrintf.PrintersDiffer` | Lab9/software/lab9_app_bsp/HAL/src/alt_printf.c:66-124 | a format outside those on which they differ |
| `AltPrintf.UnknownIsDropped` | Lab9/software/lab9_app_bsp/HAL/src/alt_printf.c:74-124 | a percent sign and any character but %, c, x and s print nothing, and what follows is text |
| `AltPrintf.PutHex` | Lab9/software/lab9_app_bsp/HAL/src/alt_printf.c:84-113 | the search for the top digit and the masks and shifts on the bits of the word print the shortest hexadecimal numeral of every number |
| `AltPrintf.NotLast` | Lab9/software/lab9_app_bsp/HAL/src/alt_printf.c:98-101 | when all digits from the shift up are zero and the number is not, the shift is not zero, so that the search ends |
| `AltPrintf.PutDigits` | Lab9/software/lab9_app_bsp/HAL/src/alt_printf.c:103-112 | the loop sends the digits from one place down |
| `HexWords.NibbleOfWord` | Lab9/software/lab9_app_bsp/HAL/src/alt_printf.c:103-106 | on 32-bit words, mask and shift take from each place the digit that repeated division by sixteen finds there |
| `HexWords.WordHoldsNumber` | Lab9/software/lab9_app_bsp/HAL/src/alt_printf.c:87 | the bits of a word, read as digits in their places, are the number that it was made of, so that each number below 2^32 has its own word |
| `HexWords.MaskReads` | Lab9/software/lab9_app_bsp/HAL/src/alt_printf.c:98-101 | the masked word is zero exactly when that digit is |
| `HexWords.FirstDigitFound` | Lab9/software/lab9_app_bsp/HAL/src/alt_printf.c:98-112 | the digits from the highest one that is not zero are the shortest numeral |
| `AltPrintf.Printf` | Lab9/software/lab9_app_bsp/HAL/src/alt_printf.c:60-128 | the loop sends what the directives say for every format |
| `WallClock.SetThenGetIff` | Lab9/software/lab9_app_bsp/HAL/src/alt_gettod.c:89-112 | at a rate that divides a million and at any two true times on an unbounded clock, a get shows the time that was set and the tick periods since if and only if that time fits, the setter's 32-bit product has wrapped a multiple of 5^6 times, and the tick counter has not wrapped since the set (at one tick a second it may have); or when the clamp hides the error at time zero |
| `WallClock.SetThenGet` | Lab9/software/lab9_app_bsp/HAL/src/alt_settod.c:80-84 | at every rate and for any two counts, a get shows the set time moved by the difference of what the counts stand for if and only if it fits, the setter's product has wrapped harmlessly and the clamp does not change it; or when the clamp hides the error at zero |
| `WallClock.LaterEpochGet` | Lab9/software/lab9_app_bsp/HAL/src/alt_gettod.c:91-93 | once the tick counter has wrapped since the set, the time shown is strictly too early, at every such rate above one |
| `WallClock.SlowClockGet` | Lab9/software/lab9_app_bsp/HAL/src/alt_gettod.c:91-93 | at one tick a second the seconds wrap with the counter and nothing is lost by it |
| `WallClock.SetThenGetTicks` | Lab9/software/lab9_app_bsp/HAL/src/alt_gettod.c:89-112 | in particular, while neither the product nor the counter has wrapped, a get shows the set time and the periods since, normalised, and the clamp is not reached |
| `WallClock.WrapLosesTime` | Lab9/software/lab9_app_bsp/HAL/src/alt_settod.c:82-84 | an input for which it is wrong by 967296 microseconds: 429497 ticks at 100 a second |
| `WallClock.WrapIsHarmless` | Lab9/software/lab9_app_bsp/HAL/src/alt_settod.c:83-84 | the 32-bit and the 64-bit products leave the same microseconds exactly when the number of wraps is a multiple of 15625 |
| `WallClock.RawTotal` | Lab9/software/lab9_app_bsp/HAL/src/alt_gettod.c:91-93 | for any two counts, the getter's sum misses the time by exactly what the setter's product lost and what the word of the seconds does not hold |
| `WallClock.ElapsedIsExact` | Lab9/software/lab9_app_bsp/HAL/src/alt_gettod.c:91-93 | at a rate that divides a million seconds and microseconds together advance one period a tick |
| `WallClock.NeverSet` | Lab9/software/lab9_app_bsp/HAL/src/alt_gettod.c:53-54 | before the time is ever set the clock shows what the count stands for, one period a tick at a rate that divides a million |
| `WallClock.GetRunsForward` | Lab9/software/lab9_app_bsp/HAL/src/alt_gettod.c:91-112 | at a rate that divides a million or exceeds it, whenever the time was set, a get one tick later shows no earlier time until the tick counter wraps |
| `WallClock.GetFallsAtWrap` | Lab9/software/lab9_app_bsp/HAL/src/alt_gettod.c:91-112 | when the counter wraps, at every rate above one, the get shows an earlier time than the one a tick before, whenever and to whatever the time was set |
| `WallClock.FallsBackByWeeks` | Lab9/software/lab9_app_bsp/HAL/src/alt_gettod.c:91-93 | an input: at 1000 ticks a second the clock falls back by 4294967295 milliseconds |
| `WallClock.RunsForward` | Lab9/software/lab9_app_bsp/HAL/src/alt_gettod.c:91-93 | between two wraps of the counter its readings never fall at a rate that divides a million or exceeds it |
| `WallClock.FallsAtWrap` | Lab9/software/lab9_app_bsp/HAL/src/alt_gettod.c:91-93 | at the wrap they fall by at least a second at every rate |
| `WallClock.RunsBackward` | Lab9/software/lab9_app_bsp/HAL/src/alt_gettod.c:91-93 | at every other rate there is a tick, in the second second, at which it does |
| `WallClock.GetRunsBackward` | Lab9/software/lab9_app_bsp/HAL/src/alt_gettod.c:71-124 | at every such rate, after setting a time at count zero, whichever it is short of the end of the range, some get shows an earlier time than the get one tick before |
| `WallClock.Normalised` | Lab9/software/lab9_app_bsp/HAL/src/alt_gettod.c:95-112 | the result has proper microseconds and the same total, or is zero for a time below zero |
| `WallClock.Normalise` | Lab9/software/lab9_app_bsp/HAL/src/alt_gettod.c:95-112 | both loops end and compute it |
| `WallClock.Clock.SetTimeOfDay` | Lab9/software/lab9_app_bsp/HAL/src/alt_settod.c:72-96 | the reset time and zone, or the error and nothing changes |
| `WallClock.Clock.GetTimeOfDay` | Lab9/software/lab9_app_bsp/HAL/src/alt_gettod.c:71-124 | the normalised sum and the zone, or the error and nothing changes |
| `FdPool.InvAlways` | Lab9/software/lab9_app_bsp/HAL/src/alt_open.c:105-171 | over every run of open, close, ioctl and redirection from start-up: used descriptors above 2 are at most alt_max_fd, free ones have no flags, device flags and locks lie at or below alt_max_fd, and other descriptors of a locked device are above its holder |
| `FdPool.LockedOut` | Lab9/software/lab9_app_bsp/HAL/src/alt_open.c:64-92 | while a descriptor holds the lock of a device, over any run in which it does not let it go, every open of that device, by a caller or to redirect a standard descriptor, fails and leaves all descriptors as they were |
| `FdPool.OpenSucceedsIff` | Lab9/software/lab9_app_bsp/HAL/src/alt_open.c:105-171 | open succeeds exactly when the name is known, nobody holds the lock, a descriptor is free and the driver agrees; otherwise the error is that of the first of these that fails |
| `FdPool.FailedOpen` | Lab9/software/lab9_app_bsp/HAL/src/alt_open.c:160-166 | a failed open leaves every descriptor as it was, and the mark where it raised it |
| `FdPool.SuccessfulOpen` | Lab9/software/lab9_app_bsp/HAL/src/alt_open.c:126-170 | a successful open takes the lowest free descriptor, gives it the device and the thirty mode bits of the caller's flags, changes no other and sets no lock |
| `FdPool.EveryDescriptor` | Lab9/software/lab9_app_bsp/HAL/src/alt_fd_unlock.c:52-56 | what every operation does to every descriptor: close frees one above 2; lock and unlock keep the device and mode of theirs; a successful open or redirection gives one the device and the caller's mode; all others stay as they were |
| `FdPool.IoctlAnswers` | Lab9/software/lab9_app_bsp/HAL/src/alt_ioctl.c:127-148 | unlocking a device succeeds and clears the lock; any other request, or one not made of a device, gets the driver's answer and leaves the pool as it was |
| `FdPool.ScanFindsHolder` | Lab9/software/lab9_app_bsp/HAL/src/alt_open.c:79-87 | the scan up to alt_max_fd finds a holder exactly when there is one |
| `FdPool.HolderKeepsLock` | Lab9/software/lab9_app_bsp/HAL/src/alt_ioctl.c:127-139 | a holder keeps its lock in every operation but its own unlock, its close when it is above 2, and its redirection |
| `FdPool.AtMostOneHolder` | Lab9/software/lab9_app_bsp/HAL/src/alt_fd_lock.c:61-69 | never two descriptors hold the lock of one device |
| `FdPool.LockIsExclusiveIff` | Lab9/software/lab9_app_bsp/HAL/src/alt_fd_lock.c:54-75 | the lock is granted exactly when no descriptor below alt_max_fd shares the device, so it is exclusive exactly when the one at alt_max_fd does not either |
| `FdPool.SharerMissed` | Lab9/software/lab9_app_bsp/HAL/src/alt_fd_lock.c:61-69 | a run from start-up in which a lock is granted although another descriptor has the device open |
| `FdPool.ClosedStandardKeepsLock` | Lab9/software/lab9_app_bsp/HAL/src/alt_release_fd.c:44-51 | a run from start-up in which a standard descriptor is redirected to a device, locked and closed: it still holds the lock, and every open of the device fails |
| `FdPool.DoKeepsInv` | Lab9/software/lab9_app_bsp/HAL/src/alt_release_fd.c:44-51 | each operation keeps the invariant |
| `FdTable.Table.constructor` | Lab9/software/lab9_app_bsp/HAL/src/alt_dev.c:118-149 | the pool at start-up |
| `FdTable.Table.GetFd` | Lab9/software/lab9_app_bsp/HAL/src/alt_get_fd.c:54-101 | the first free descriptor gets the device and the mark is raised to it, or the error and nothing changes |
| `FdTable.Table.FileLocked` | Lab9/software/lab9_app_bsp/HAL/src/alt_open.c:64-92 | marks the descriptor as one of a device and says whether another one at or below the mark holds the lock |
| `FdTable.Table.Open` | Lab9/software/lab9_app_bsp/HAL/src/alt_open.c:105-171 | the pool, the result and errno are those of the open that the theorems are about |
| `FdTable.Table.Close` | Lab9/software/lab9_app_bsp/HAL/src/alt_close.c:64-101 | releases the descriptor unless it is a standard one, whatever the driver answers |
| `FdTable.Table.FdLock` | Lab9/software/lab9_app_bsp/HAL/src/alt_fd_lock.c:54-75 | scan and bit are those of the lock that the theorems are about |
| `FdTable.Table.FdUnlock` | Lab9/software/lab9_app_bsp/HAL/src/alt_fd_unlock.c:52-56 | only the lock bit goes |
| `FdTable.Table.Ioctl` | Lab9/software/lab9_app_bsp/HAL/src/alt_ioctl.c:106-168 | routes lock and unlock of devices, everything else to the driver, and sets errno exactly on errors |
| `FdTable.Table.ReleaseFd` | Lab9/software/lab9_app_bsp/HAL/src/alt_release_fd.c:44-51 | frees a descriptor above 2 and does nothing to the others |
| `FdTable.Table.OpenFd` | Lab9/software/lab9_app_bsp/HAL/src/alt_io_redirect.c:58-72 | a standard descriptor becomes the new one, which is freed, or stays as it was |
| `Heap.BlocksNeverOverlap` | Lab9/software/lab9_app_bsp/HAL/src/alt_gmon.c:133-148 | after any run of sbrk calls and slab allocations all blocks handed out are word-aligned, within the heap limits and pairwise disjoint |
| `Heap.AllocateKeepsInv` | Lab9/software/lab9_app_bsp/HAL/src/alt_gmon.c:133-148 | an allocation keeps that, and returns new memory exactly when the slab suffices and is not lost or the request for a new slab is granted; otherwise a pointer outside the heap |
| `Heap.CutWhereLastEnded` | Lab9/software/lab9_app_bsp/HAL/src/alt_gmon.c:135-147 | no memory is wasted: a block begins where the last one ended while the slab suffices, and otherwise a new slab of 1020 bytes at the aligned break |
| `Heap.LostStaysLost` | Lab9/software/lab9_app_bsp/HAL/src/alt_gmon.c:137-147 | once there is no room there is none at the next allocation either |
| `Heap.SbrkKeepsInv` | Lab9/software/lab9_app_bsp/HAL/src/alt_sbrk.c:68-95 | a granted or refused request keeps it |
| `Heap.GrantIsWithin` | Lab9/software/lab9_app_bsp/HAL/src/alt_sbrk.c:89-95 | the check against the limit is right exactly when the sum of pointer and increment does not wrap |
| `Heap.LowHeapNeverWraps` | Lab9/software/lab9_app_bsp/HAL/src/alt_sbrk.c:75-95 | in the lower half of the address space a request is granted exactly when its block ends at or below the limit |
| `Heap.AlignIsLeast` | Lab9/software/lab9_app_bsp/HAL/src/alt_sbrk.c:76 | the break is raised to the least multiple of four, or wraps to zero at the very top |
| `Heap.GivenBack` | Lab9/software/lab9_app_bsp/HAL/src/alt_sbrk.c:89-95 | a negative increment lowers the aligned break by exactly as much, and is granted exactly when that is within the limit |
| `Heap.HighHeapWraps` | Lab9/software/lab9_app_bsp/HAL/src/alt_sbrk.c:89 | a request in the upper half that is granted beyond the limit |
| `Profiler.Allocator.Sbrk` | Lab9/software/lab9_app_bsp/HAL/src/alt_sbrk.c:68-136 | the aligned old break, or -1 with the break aligned all the same |
| `Profiler.Allocator.Allocate` | Lab9/software/lab9_app_bsp/HAL/src/alt_gmon.c:133-148 | the slab code cuts the block that the theorems are about |
| `Profiler.Recorder.NewNode` | Lab9/software/lab9_app_bsp/HAL/src/alt_gmon.c:186-198 | a node is fresh memory when there is room, and outside the heap exactly when there is none |
| `Profiler.Recorder.Record` | Lab9/software/lab9_app_bsp/HAL/src/alt_gmon.c:159-206 | when there is room, a new arc with count one, and a new function if there was none, at the heads of their lists in memory, each word of them at its offset; every list stays whole, no two share a node and no other field changes; the arc lies outside the heap exactly when there is no room |
| `CallGraph.FnAdded` | Lab9/software/lab9_app_bsp/HAL/src/alt_gmon.c:184-194 | storing the three fields of a fresh node and the head keeps every list in memory |
| `CallGraph.ArcAdded` | Lab9/software/lab9_app_bsp/HAL/src/alt_gmon.c:196-204 | so do the stores of an arc and of its function's list head |
| `CallGraph.PushKeepsApart` | Lab9/software/lab9_app_bsp/HAL/src/alt_gmon.c:196-204 | no arc gets into the lists of two functions |
| `CallGraph.BlockIsFresh` | Lab9/software/lab9_app_bsp/HAL/src/alt_gmon.c:187-198 | memory that the allocator has just handed out overlaps no node |

## Left out

- UartMachine: one thread reads and one writes at a time. This is assumed of the callers: the source posts `read_lock` before it enables the receive interrupt, so that a second reader could come in between. Lengths are positive or zero and never negative; the 16-bit RAVAIL count of the device is modelled by whether it is zero.
- UartDriver.JtagUart.Read: `patience` bounds the waiting loops, because how long the host stays away is not bounded; when it runs out the result is Waiting, and what is claimed then is that the ring was found empty and that the call has taken more steps than that.
- UartDriver.JtagUart.Write: `patience` likewise.
- The uC/OS-II branches and event flags of the driver, the small driver, the build that ignores a full FIFO, the close function and the logging hooks: they do not change the ring argument.
- HashTable.LPHashTable.constructor: hash, findPrime and shouldResize are not in the repository; they are parameters with what the class needs of them (an index below the size, a size at least the one asked for, true when there are at least as many pairs as slots).
- HashTable.LPHashTable.FindIndex: the conversion of a slot number to int, and size_t overflow of sizes, are not modelled.
- `LPHashTable::clear`, copying and destruction: clear leaves the slots of the new table unset, so that its result is undefined; the others are memory management.
- AesEncrypt.MixColumns: the loop body is four named functions of a column, and the halves of `encrypt` and of a pass of `KeyExpansion` are methods of their own; the order of the stores is that of the source.
- The hardware decryption and `main` of `Lab9/software/lab9_app/main.c`: the core is not in the repository; the inverse cipher here is that of FIPS 197 with the repository's tables.
- Alarms.AlarmSystem.AlarmStart: starting an alarm that is already registered corrupts the list in the source and is excluded; callbacks return numbers from a given sequence and do not edit the list.
- LogPrinter.Port.PrivatePrintf: field widths are unbounded, where the source's int could overflow; argument k is read as a word or as a string as the directive asks, whatever was passed.
- AltPrintf.PrintersAgree: its condition is sufficient; there are other formats on which the printers agree, such as one that ends inside a field width.
- AltPrintf.PutHex: shifts by a variable number of bits are written as a choice between the eight shifts by whole digits.
- WallClock.Clock.GetTimeOfDay: the caller's structures are not the clock's own; calls do not overlap with a set.
- FdTable.Table.Open: looking up the name in the device and file-system lists is a parameter, as is the answer of the driver's own open, close and ioctl; the semaphore around the pool is not modelled, so operations are atomic.
- FdTable.Table.Ioctl: the descriptor is an open one or negative; the source would follow a null pointer for a free one and leave the array for one of 32 or more.
- Profiler.Allocator.Sbrk: after a negative increment only the break is described, because memory given back may be handed out again; the build with `ALT_MAX_HEAP_BYTES` and stack checking are left out.
- Profiler.Recorder.Record: when there is no room nothing is promised about the lists afterwards, because the source goes on to store through a pointer outside the heap; what such stores hit is not modelled. Starting the sampler is left out.
- `mcount` itself (assembly that looks an arc up and counts it), the sampling histogram, file-system and device registration, cache flushing, exception entry and the other stubs.
- Lab 8: its copies of these files are the same code, and its USB program is register writes to a chip that is not described.
