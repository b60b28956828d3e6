# Verification of the kernel, the sensor driver and the web server

A Dafny model of the parts of the repository that keep state, run concurrently
or compute in fixed point, with proofs about every input and every run. Check
it with `dafny verify dfyconfig.toml`.

| files | what they model |
|---|---|
| `I2cBus`, `I2cSafety`, `I2cLinearizability`, `I2cReturn`, `I2cReaders`, `I2cResults`, `I2cTimeout`, `I2cRecovery`, `I2cProgress`, `I2cHandler` | the I2C driver: callers, interrupt handler, bus controller and slaves as a step system, and the handler as a routine over the driver's statics |
| `Scheduler`, `VirtualCpu` | the task table, the IRQ vector with its context switch and the lazy NEON switch, and one private CPU per task that it refines |
| `ClientCount`, `Dispatch`, `Configuration`, `Http` | the web server: the record that children, parent and sensor thread share under a semaphore, the configuration loop, the request scanner and the assembly of answers |
| `Measurement`, `TornRuns`, `WholeReading`, `TempSensor`, `Bmp280`, `TempText`, `TemperaturePath` | the temperature from the three register reads and the raw reading over its text to the published moving average |
| `Lcg`, `Random` | the two pseudo-random routines and the number theory that separates them |
| `MemTest` | the two memory self-tests, on a memory with stuck bits |
| `TimerMasks`, `TimerControl` | the control register of the timers, down to its bit masks |
| `CLanguage`, `Arithmetic` | integers, numerals and sequences the others share |

Code that updates state is modelled by classes and methods with loops, each
proved against a function of the old state; what the source promises is proved
about those functions. Concurrent code is a step system: `Run` applies any
sequence of steps of any number of participants, and the theorems are about
every such sequence.

## Where code and documentation disagree

The model follows the code.

- The comment of the IRQ vector (vector_table.S, lines 110-113) says that an
  interrupt other than the scheduler's resumes the same task. The vector saves
  into the last slot and loads from the current one;
  `OtherTimerUnnoticedExactlyWhen` says when nobody notices.
- The comment of `task1_memtest` names the value 0xAA55AA55; the constant
  PATTERN in task1_ctes.h is 0x55AA55AA. The statements hold for the constant.
- `cotti_i2c_read` promises the value read, but reads `g_read` after it has
  released the mutex (`ReturnCanBeStolen`). The value returned is always right
  exactly when no more than one caller reads (`ReturnsAreRightExactlyWhen`).
  After a timeout the transfer goes on (`OneTimeoutMisleadsTheNextReader`): all
  runs linearize exactly when nobody times out (`LinearizesExactlyWhen`), and
  again from every settled state after that (`RecoversWhenSettled`).
- `prv_isr` acknowledges at the end of a turn what it has read at the beginning.
  A reception whose ARDY comes in between is never completed, and its reader
  waits until its time limit (`StopCanBeLost`, `CanUnlockExactlyWhen`).
- `bmp280_read_temperature` reads its three bytes under three separate locks, so
  they need not be one measurement (`ReadingCanBeTorn`). They are the reading
  held at the first read on all runs exactly when neither of the lower registers
  changes (`WholeExactlyWhen`, for what the calls return
  `ReturnsWholeExactlyWhen`), and one held at some time exactly when at most one
  of the three registers does (`HeldExactlyWhen`).
- dig_T2 and dig_T3 are signed in the BMP280 data sheet; `bmp280_init` does not
  extend their sign. Its readings are the data sheet's for all raw readings
  exactly when neither word is negative (`MeetsDataSheetExactlyWhen`); the data
  sheet's own example is off by 4.75 degrees (`DataSheetExample`).
- `char_device_read` says it returns a string like "50.80"; a negative
  temperature has a second sign in front of the fraction
  (`ReadsBackExactlyWhen`).
- `timer_time_ms` says it rounds upwards; above 2^32 - 1000 the sum wraps
  around (`RoundsUpExactlyWhen`).
- The sample count may be lowered while the ring index is beyond the new end
  (`SafeExactlyWhen` for all runs, `ChangingIsSafeExactlyWhen`).
- A configuration line with a known key and no value is a null pointer for
  `atoi` (`CrashesExactlyWhen`), and the semaphore is then never released.

## Main results

| result | in words |
|---|---|
| I2cLinearizability.Linearizes, I2cTimeout.LinearizesExactlyWhen, I2cRecovery.RecoversWhenSettled | interleaved I2C calls amount to sequential register accesses, exactly when nobody times out, and again once the bus has settled |
| I2cResults.WriteReturns, I2cResults.ReadReturns, I2cResults.FailsExactlyWhen | what every call returns, timeouts included |
| I2cReaders.ReturnsAreRightExactlyWhen | a read returns its own value on all runs exactly when there is no more than one reader |
| I2cProgress.CanUnlockExactlyWhen | the holder of the bus can always finish, unless it is a reader whose ARDY has been lost |
| WholeReading.ReturnsWholeExactlyWhen, WholeReading.HeldExactlyWhen | when the three bytes of a temperature belong together |
| Lcg.FullPeriod, KernelRandom.EveryWindowVisitsEveryWord | the kernel's generator has period 2^32, for a reason that holds modulo every 2^k |
| AddressGenerator.StuckExactlyWhen, AddressGenerator.CollapsesToOneWord | the address generator forgets its seed in sixteen calls |
| VirtualCpu.RunsLikePrivateCpus, VirtualCpu.OtherTimerUnnoticedExactlyWhen | the scheduler gives every task a CPU of its own, under scheduler ticks |
| Scheduler.AddsFillInOrder, VirtualCpu.AddedTasksRunAlone | the task table after any adds, register by register, and what runs from it |
| ClientCount.Linearizes, ClientCount.NoUpdateLost | no client is lost or counted twice under any interleaving of processes |
| Configuration.Server.UpdateConfiguration, Configuration.LineSets, Configuration.CrashesExactlyWhen, Configuration.WrittenFileReadsBack | what a configuration file means, and which lines crash the server |
| HttpRequest.RequestLineRoundTrip, HttpResponse.Response | requests are split as they were put together; an answer arrives whole, with its length |
| TempSensor.PublishesMovingAverage, TempSensor.SafeExactlyWhen | the published value is the mean of the last readings; on exactly which runs the ring index stays inside |
| Bmp280.WithinTwoHundredths, Bmp280.MeetsDataSheetExactlyWhen | how accurate the compensation is, and for which calibration words it is the data sheet's |
| TempText.ReadsBackExactlyWhen, TemperaturePath.PublishedIsAccurate | which temperatures survive their text; 0.02 degrees from raw reading to published mean |
| MemTest.Task1MemTest, MemTest.Task2MemTest, MemTest.HealthyRegionHoldsEverything | what the verdicts of the memory tests mean |
| TimerControl.RunRefines, TimerControl.LastModeWins | the timer's control word is a faithful encoding of its settings |

## Model

| member | source | states |
|---|---|---|
| I2cSafety.MutexAlways | 02_cuat/driver/src/cotti_i2c.c:218-302 | On every run of every number of callers, timeouts included, `lock_bus` is held exactly by the one caller between its lock and its unlock; so every return path has released it. |
| I2cSafety.LoadsNextByte | 02_cuat/driver/src/cotti_i2c.c:324-327 | At every XRDY the byte written to the data register is the next one of the caller's message (register address first), and the index into `g_write` is 0 or 1. |
| I2cSafety.HandlerEdges | 02_cuat/driver/src/cotti_i2c.c:320-327 | An index beyond the two bytes of `g_write` is reported for good and loads nothing; within them one byte is loaded and nothing is reported. |
| I2cSafety.SendingInterrupt | 02_cuat/driver/src/cotti_i2c.c:309-332 | No step of the handler disturbs a transmission: bytes loaded, `g_len`, FIFO content, pending ARDY and the effect on the slave keep agreeing. |
| I2cSafety.ReceivingInterrupt | 02_cuat/driver/src/cotti_i2c.c:320-323 | The same for a reception: at most one byte, fetched once, ends up in `g_read` with at most one `comp_read`. |
| I2cSafety.CallerKeepsInv | 02_cuat/driver/src/cotti_i2c.c:218-302 | Each step of `cotti_i2c_write` or `cotti_i2c_read`, by any caller, keeps the invariant that ties its program point to the driver's statics, the controller and the slaves. |
| I2cLinearizability.StepKeepsInv | 02_cuat/driver/src/cotti_i2c.c:218-332 | Every step of callers, handler, controller and slaves, short of a timeout, keeps that invariant. |
| I2cLinearizability.RunKeepsInv | 02_cuat/driver/src/cotti_i2c.c:218-332 | It holds in every state of every run without timeouts. |
| I2cLinearizability.SlavesFollowLog | 02_cuat/driver/src/cotti_i2c.c:218-332 | On all runs, the register files are what the log of accesses leaves, and each logged read has the value of the register at its place. |
| I2cLinearizability.Linearizes | 02_cuat/driver/src/cotti_i2c.c:218-332 | Linearization: whatever the interleaving, one sequential order of accesses explains the slaves, and its bus accesses are the finished calls in unlock order with the results their callers saw; only the mutex holder can be one access ahead. |
| I2cLinearizability.UnlockSeesItsOwnAccess | 02_cuat/driver/src/cotti_i2c.c:245-247 | At an unlock the access of that very call is the last one on the bus. |
| I2cLinearizability.UnlockAgreesWithSlave | 02_cuat/driver/src/cotti_i2c.c:298-300 | At a reader's unlock `g_read` is the slave's value at the requested register, at a writer's unlock the register holds the value written, unless the slave itself has changed that register since the access. |
| I2cLinearizability.LengthNeverUnderflows | 02_cuat/driver/src/cotti_i2c.c:320-327 | `g_len` is only decremented above zero and `g_write[g_len]` is always inside its two bytes. |
| I2cLinearizability.LengthCountsRemaining | 02_cuat/driver/src/cotti_i2c.c:375-378 | During a transmission `g_len` is the number of bytes the controller still wants. |
| I2cLinearizability.LengthCountsUnfetched | 02_cuat/driver/src/cotti_i2c.c:320-323 | During a reception `g_len` is the number of bytes the handler has still to fetch. |
| I2cLinearizability.CompletionsZeroAtLock | 02_cuat/driver/src/cotti_i2c.c:245-246 | Whenever the mutex is free both completions are zero and no transfer is going on. |
| I2cLinearizability.BytesNeverMix | 02_cuat/driver/src/cotti_i2c.c:225-238 | All bytes on their way to the wire belong to the message of the one caller that holds the mutex, and go to its slave. |
| I2cReturn.UndisturbedRead | 02_cuat/driver/src/cotti_i2c.c:254-302 | From every idle state a read can run to its unlock with the requested register in `g_read`, and leaves the bus idle (the runs above are not empty). |
| I2cReturn.ReturnCanBeStolen | 02_cuat/driver/src/cotti_i2c.c:300-301 | `g_read` is read after the unlock: for any two readers there is a run in which one returns the register the other asked for. |
| I2cReaders.FetchIsForHolder | 02_cuat/driver/src/cotti_i2c.c:320-323 | The handler fetches a byte only for the holder of the mutex, which stands at its wait for it; the byte is that of its own read access. |
| I2cReaders.AlwaysReadsLastFetch | 02_cuat/driver/src/cotti_i2c.c:300-301 | In every state of every run without timeouts `g_read` has the value of the last read access whose byte has been fetched. |
| I2cReaders.ReturnsLastFetch | 02_cuat/driver/src/cotti_i2c.c:300-301 | So that is what a successful read returns, whoever made the access. |
| I2cReaders.ReturnsLastOvertaking | 02_cuat/driver/src/cotti_i2c.c:298-301 | Exactly what a read returns: the value of the last read fetched since its own unlock, or its own if there is none. |
| I2cReaders.ReturnIsRightUndisturbed | 02_cuat/driver/src/cotti_i2c.c:298-301 | When no other caller waits for a byte between the unlock and the return, the value returned is that of the entry the unlock has put into the history. |
| I2cReaders.OwnEntryIsInHistory | 02_cuat/driver/src/cotti_i2c.c:298-300 | The entry a return is measured by is in the history and is a read of the requested register. |
| I2cReaders.ReturnsAreRightExactlyWhen | 02_cuat/driver/src/cotti_i2c.c:254-302 | Every read of every run without timeouts returns the value of its own access if and only if no more than one caller ever reads; the number of writers does not matter. |
| I2cResults.CallsAlwaysOk | 02_cuat/driver/src/cotti_i2c.c:218-302 | On every run, timeouts included, what a caller's steps have added, whether it was late and how often it found the bus busy fit the place it stands at. |
| I2cResults.WriteReturns | 02_cuat/driver/src/cotti_i2c.c:218-248 | On every run, timeouts included, a write has returned 0 if and only if its steps added its `Written` entry to the history, and -1 if and only if they added nothing. |
| I2cResults.ReadReturns | 02_cuat/driver/src/cotti_i2c.c:254-302 | On every run, timeouts included, a read has returned -1 if and only if its steps added nothing, and otherwise a byte, having added one read of its register. |
| I2cResults.FailsExactlyWhen | 02_cuat/driver/src/cotti_i2c.c:222-244 | A call returns -1 if and only if one of its waits ran into its time limit or it found the bus busy at 101 looks. |
| I2cRecovery.RecoversWhenSettled | 02_cuat/driver/src/cotti_i2c.c:276-282 | From any state with a free mutex and nothing in flight, however many timeouts led there, the accesses that follow are again the calls that follow, in unlock order with the effect their callers saw. |
| I2cRecovery.UnlockAfterRecovery | 02_cuat/driver/src/cotti_i2c.c:276-300 | There, at an unlock the access of that very call is the last one on the bus. |
| Measurement.BytesOfOneMeasurement | 02_cuat/driver/src/bmp280.c:68-74 | On every run, three read accesses of the temperature registers give the one reading the slave held at the first, provided neither of the lower registers changes before it is read. |
| Measurement.BytesHeldAt | 02_cuat/driver/src/bmp280.c:68-74 | More generally they give the reading held at some position if no register changes between that position and its own access. |
| WholeReading.WholeExactlyWhen | 02_cuat/driver/src/bmp280.c:68-74 | Three accesses give the reading held at the first, on every run, if and only if neither of the lower registers ever changes. |
| WholeReading.HeldExactlyWhen | 02_cuat/driver/src/bmp280.c:68-74 | They give a reading that was held at some time in between, on every run, if and only if at most one of the three registers ever changes. |
| WholeReading.LastReadIsOwn | 02_cuat/driver/src/cotti_i2c.c:298-301 | When the only reader returns, the last read access on the bus is its own, with the value it returns. |
| WholeReading.ThreeCallsRead | 02_cuat/driver/src/bmp280.c:69-72 | Three calls of the only reader make three accesses in that order, and return their values. |
| WholeReading.ReturnsWholeExactlyWhen | 02_cuat/driver/src/bmp280.c:68-74 | What three calls of the only reader return is the reading held at the access of the first, on every run, if and only if neither of the lower registers ever changes. |
| WholeReading.ReadingCanBeTorn | 02_cuat/driver/src/bmp280.c:69-72 | For any two successive readings there is a run that combines the first byte of the one with the others of the next. |
| WholeReading.TornReadingIsFarOff | 02_cuat/driver/src/bmp280.c:69-74 | A run from 0x7FFFF to the next reading 0x80000 on which the driver takes a reading 4095 steps below the first. |
| I2cTimeout.OneTimeoutMisleadsTheNextReader | 02_cuat/driver/src/cotti_i2c.c:276-282 | After one timeout the abandoned transfer's completion can make the next reader succeed with the register of the reader before it. |
| I2cTimeout.LinearizesExactlyWhen | 02_cuat/driver/src/cotti_i2c.c:218-332 | If only the callers of a set ever time out, all runs linearize if and only if the set is empty; and only then does every successful call have an access of its own kind and result on the bus at all. |
| I2cProgress.RunKeepsMore | 02_cuat/driver/src/cotti_i2c.c:309-332 | On every run without timeouts the handler never works on XRDY and ARDY in one turn, and no ARDY of a transmission is lost. |
| I2cProgress.CanUnlockExactlyWhen | 02_cuat/driver/src/cotti_i2c.c:218-332 | From every state of every run without timeouts the holder of the mutex can get to its unlock if and only if it is not a reader whose ARDY has been lost. |
| I2cProgress.WritersCanUnlock | 02_cuat/driver/src/cotti_i2c.c:218-248 | A writer that holds the mutex always can. |
| I2cProgress.OnlyOverlapLoses | 02_cuat/driver/src/cotti_i2c.c:316-329 | The ARDY of a reception is lost exactly when it is raised while the one before is still unacknowledged. |
| I2cProgress.StopCanBeLost | 02_cuat/driver/src/cotti_i2c.c:285-291 | Every reader can lose its ARDY in this way, and then only its time limit takes it any further. |
| I2cHandler.TurnIsSteps | 02_cuat/driver/src/cotti_i2c.c:313-330 | One turn of the handler's loop is a run of the single handler steps the theorems above interleave. |
| I2cHandler.ServedIsHandled | 02_cuat/driver/src/cotti_i2c.c:313-330 | When nothing arrives meanwhile, the routine has exactly the effect of its three branches in their order. |
| I2cHandler.Driver.constructor | 02_cuat/driver/src/cotti_i2c.c:24-27 | The statics of the driver before the first interrupt, with whatever is going to happen on the bus. |
| I2cHandler.Driver.Happens | 02_cuat/driver/src/cotti_i2c.c:313 | What the controller and the slaves do between two steps of the handler changes no static of the driver. |
| I2cHandler.Driver.Sample | 02_cuat/driver/src/cotti_i2c.c:313 | The handler takes its copy of the status and works on that copy from then on. |
| I2cHandler.Driver.OnArdy | 02_cuat/driver/src/cotti_i2c.c:316-317 | ARDY in the copy completes `comp_stop` once; then the bus goes on. |
| I2cHandler.Driver.OnRrdy | 02_cuat/driver/src/cotti_i2c.c:320-323 | RRDY in the copy counts `g_len` down, moves one byte to `g_read` and completes `comp_read`, in three steps between which the bus goes on. |
| I2cHandler.Driver.OnXrdy | 02_cuat/driver/src/cotti_i2c.c:324-327 | XRDY in the copy counts `g_len` down and loads the byte at the new index, or reports an index outside `g_write`, in two steps. |
| I2cHandler.Driver.Acknowledge | 02_cuat/driver/src/cotti_i2c.c:329 | Exactly the events in the copy are cleared, whatever has come since. |
| I2cHandler.Driver.Turn | 02_cuat/driver/src/cotti_i2c.c:313-330 | The body of the loop is so many handler steps, each followed by what then happens on the bus. |
| I2cHandler.Driver.PrvIsr | 02_cuat/driver/src/cotti_i2c.c:309-332 | Whatever arrives between any two of its steps, the routine ends with a clear status in the state that stepping the handler to its end leads to, by a run of handler and bus steps. |
| KernelRandom.RandomSource.constructor | 01_cuat/tp_01_06/src/kernel/common.c:9 | The static starts at zero. |
| KernelRandom.RandomSource.GetRandom | 01_cuat/tp_01_06/src/kernel/common.c:8-12 | The n-th call returns the n-th value of the orbit modulo 2^32, although the expression is evaluated in 64 bits with wrap-around. |
| KernelRandom.TruncatedStep | 01_cuat/tp_01_06/src/kernel/common.c:10 | Truncating the wrapped 64-bit expression gives the 32-bit step whose multiplier is 0x14159265. |
| Lcg.GeoDivisibility | 01_cuat/tp_01_06/src/kernel/common.c:10 | For every multiplier that is 1 modulo 4, 1 + a + ... + a^(n-1) and n are divisible by the same powers of two. |
| Lcg.DistanceDivisibility | 01_cuat/tp_01_06/src/kernel/common.c:10 | n steps move any value by a multiple of 2^k exactly when 2^k divides n. |
| Lcg.FullPeriod | 01_cuat/tp_01_06/src/kernel/common.c:10 | For every k, seed, multiplier 1 modulo 4 and odd increment, two values modulo 2^k agree exactly when 2^k divides the distance of their positions. |
| Lcg.VisitsEverything | 01_cuat/tp_01_06/src/kernel/common.c:10 | Every k-bit value occurs at exactly one position below 2^k. |
| KernelRandom.RepeatsOnlyAfterFullPeriod | 01_cuat/tp_01_06/src/kernel/common.c:8-12 | Calls m and n return the same word exactly when 2^32 divides m - n. |
| KernelRandom.EveryWindowVisitsEveryWord | 01_cuat/tp_01_06/src/kernel/common.c:8-12 | Any 2^32 consecutive calls return every 32-bit word exactly once. |
| AddressGenerator.Generator.constructor | 01_cuat/tp_01_04_bis/src/boot.s:61 | The word starts as whatever the data section or an earlier write left. |
| AddressGenerator.Generator.Random | 01_cuat/tp_01_04_bis/src/boot.s:35-45 | The n-th call returns the n-th value of the orbit of its seed, mul and add each keeping 32 bits. |
| AddressGenerator.AlwaysAligned | 01_cuat/tp_01_04_bis/src/boot.s:58-60 | Every word after the first call is a multiple of four, for every seed. |
| AddressGenerator.SeedsMeet | 01_cuat/tp_01_04_bis/src/boot.s:35-45 | Two seeds have met after n calls exactly when 2^(32-2n) divides their difference. |
| AddressGenerator.StuckExactlyWhen | 01_cuat/tp_01_04_bis/src/boot.s:35-45 | Call n+1 repeats call n exactly when n is at least 16 or 2^(32-2n) divides the seed's first step. |
| AddressGenerator.CollapsesToOneWord | 01_cuat/tp_01_04_bis/src/boot.s:35-45 | From call 16 on one and the same word is returned, whatever the seed. |
| AddressGenerator.OddSeedMovesSixteenTimes | 01_cuat/tp_01_04_bis/src/boot.s:35-45 | The bound is sharp: an odd seed moves at each of its first 16 calls. |
| Scheduler.Kernel.constructor | 01_cuat/tp_01_06/src/kernel/scheduler.c:10-16 | The kernel's statics before initialisation. |
| Scheduler.Kernel.SchedulerInit | 01_cuat/tp_01_06/src/kernel/scheduler.c:33-43 | Register by register: every slot runs the idle task on its stack and table, in system and Thumb mode, with ids 1 to 10; all else stays. |
| Scheduler.Kernel.SchedulerAddTask | 01_cuat/tp_01_06/src/kernel/scheduler.c:55-73 | Register by register: the first free slot has the entry point plus four, the task's own stack and table, user mode and Thumb for an odd entry point; all else stays; the result is 1 exactly when no slot is free. |
| Scheduler.FirstFreeIs | 01_cuat/tp_01_06/src/kernel/scheduler.c:58-59 | With n tasks in the table the loop finds slot n, or none at ten. |
| Scheduler.AddKeepsOrder | 01_cuat/tp_01_06/src/kernel/scheduler.c:55-73 | An add appends to the tasks in the table and never disturbs earlier slots or ids, full table included. |
| Scheduler.AddsFillInOrder | 01_cuat/tp_01_06/src/kernel/scheduler.c:33-73 | After any adds the slots hold, in call order and register by register, the tasks whose entry point is not the idle task; the ids are still 1 to 10. |
| Scheduler.FreeSlotsStayIdle | 01_cuat/tp_01_06/src/kernel/scheduler.c:33-73 | While no task has the idle task's entry point, the free slots are as initialised. |
| Scheduler.FullExactlyAtTen | 01_cuat/tp_01_06/src/kernel/scheduler.c:55-73 | The next add reports a full table exactly when ten such tasks were added. |
| Scheduler.Kernel.ChangeTask | 01_cuat/tp_01_06/src/kernel/scheduler.c:104-111 | The tick moves to the next slot, wraps at ten and remembers the slot left. |
| Scheduler.Kernel.IrqHandler | 01_cuat/tp_01_06/src/kernel/int_handlers.c:112-156 | By interrupt id: 36 with TIMER0 raised makes the next of ten slots current and remembers the one left; 36 otherwise, 37, 73 and 74 change neither; 1 asks not to save; any other id halts. |
| Scheduler.Kernel.SaveContext | 01_cuat/tp_01_06/src/kernel/vector_table.S:125-163 | The interrupted registers go to the last slot; NEON registers only when NEON is on, which is then turned off. |
| Scheduler.Kernel.Irq | 01_cuat/tp_01_06/src/kernel/vector_table.S:116-189 | By interrupt id: the interrupted registers go to the last slot and to no other, for id 1 to none; the CPU then has the registers and id of the current slot; an unknown id halts and changes nothing. |
| Scheduler.Kernel.NeonUndefHandler | 01_cuat/tp_01_06/src/kernel/neon.S:75-102 | The first NEON instruction after a switch loads the current slot's NEON registers, a later one nothing. |
| Scheduler.Kernel.SchedulerStart | 01_cuat/tp_01_06/src/kernel/scheduler.c:80-87 | The start turns NEON off and loads the current slot without saving the boot code. |
| VirtualCpu.TickKeepsViews | 01_cuat/tp_01_06/src/kernel/vector_table.S:116-189 | A tick changes who is current and nothing any task can see of its own registers, NEON included. |
| VirtualCpu.InstructionActsOnOwner | 01_cuat/tp_01_06/src/kernel/neon.S:75-102 | An instruction acts on the current task as on a private CPU and on no other task, a lazily enabled NEON instruction too. |
| VirtualCpu.RoundRobin | 01_cuat/tp_01_06/src/kernel/scheduler.c:104-111 | After k ticks the current slot is k modulo 10 further on and the last slot is its predecessor. |
| VirtualCpu.EachSlotOncePerTurn | 01_cuat/tp_01_06/src/kernel/scheduler.c:104-111 | Any ten consecutive ticks make every slot current exactly once. |
| VirtualCpu.AsidFollowsSlot | 01_cuat/tp_01_06/src/kernel/vector_table.S:171-173 | On every run the address-space id in force is that of the current slot. |
| VirtualCpu.RunsLikePrivateCpus | 01_cuat/tp_01_06/src/kernel/int_handlers.c:109-156 | Refinement: over every run of ticks and arbitrary instructions each task has exactly the registers of a private CPU that executes only its own instructions. |
| VirtualCpu.StartedTasksRunAlone | 01_cuat/tp_01_06/src/kernel/scheduler.c:80-87 | From start on, every slot runs from its table entry as if it were alone. |
| VirtualCpu.AddedTasksRunAlone | 01_cuat/tp_01_06/src/kernel/scheduler.c:33-87 | From initialisation through any adds and the start: the j-th task added starts at its entry point with its own stack, table and id, and runs as if it were alone. |
| VirtualCpu.TimerTick | 01_cuat/tp_01_06/src/kernel/int_handlers.c:116-118 | The tick of all these runs is interrupt 36 with TIMER0 raised: the next of ten slots becomes current. |
| VirtualCpu.OtherTimerUnnoticedExactlyWhen | 01_cuat/tp_01_06/src/kernel/vector_table.S:110-189 | An interrupt of another timer goes unnoticed exactly when last and current slot coincide or both happen to mirror the CPU (the comment promises it always does). |
| VirtualCpu.OtherTimerAfterFirstTick | 01_cuat/tp_01_06/src/kernel/vector_table.S:110-189 | After any run with a tick only the accidental case is left. |
| VirtualCpu.SoftwareUnnoticedExactlyWhen | 01_cuat/tp_01_06/src/kernel/vector_table.S:119-123 | A software interrupt goes unnoticed exactly when the current task has changed nothing since it was loaded. |
| VirtualCpu.SecondTaskNotices | 01_cuat/tp_01_06/src/kernel/vector_table.S:110-189 | From every task table: after one tick and one instruction that changes a register, both another timer and a software interrupt take that instruction back. |
| MemTest.Memory.constructor | 01_cuat/tp_01_06/src/kernel/common.c:31-42 | A memory of the given size with arbitrary stuck bits. |
| MemTest.Memory.ReadPrivilegedData | 01_cuat/tp_01_06/src/kernel/common.c:31-33 | A read returns the stored word with each stuck bit at its level. |
| MemTest.Memory.WritePrivilegedData | 01_cuat/tp_01_06/src/kernel/common.c:40-42 | A write stores at its address and nowhere else. |
| MemTest.ProbeWithPattern | 01_cuat/tp_01_06/src/task1/task1.c:28-36 | One round passes exactly when no stuck bit of the word disagrees with the pattern, and the memory reads as before. |
| MemTest.ProbeWithInverse | 01_cuat/tp_01_06/src/task2/task2.c:27-35 | One round passes exactly when the word has no stuck bit, and the memory reads as before. |
| MemTest.Task1MemTest | 01_cuat/tp_01_06/src/task1/task1.c:22-40 | TRUE exactly when no stuck bit disagrees with PATTERN in the first word and in every word whose four bytes lie in the given size; on both returns all of memory reads as before. |
| MemTest.Task2MemTest | 01_cuat/tp_01_06/src/task2/task2.c:21-39 | TRUE exactly when there is no stuck bit in the first word and in every word whose four bytes lie in the given size; on both returns all of memory reads as before. |
| MemTest.TailIsShort | 01_cuat/tp_01_06/src/task2/task2.c:25 | From a size of four bytes on, the words tested are the first of the region without a gap, and fewer than four bytes at its end are left out. |
| MemTest.HealthyRegionHoldsEverything | 01_cuat/tp_01_06/src/task2/task2.c:16-20 | What task 2's verdict means: every word of the region gives back every value stored in it, and conversely. |
| MemTest.HealthyHoldsEveryWord | 01_cuat/tp_01_06/src/task2/task2.c:16-20 | A word has no stuck bit exactly when it gives back everything stored in it. |
| MemTest.InversionSubsumesPattern | 01_cuat/tp_01_06/src/task1/task1.c:16-21 | A region that passes task 2 passes task 1. |
| MemTest.PatternMissesItsOwnLevels | 01_cuat/tp_01_06/src/task1/task1.c:34-36 | Every set of stuck bits has levels that task 1 does not detect and task 2 does. |
| ClientCount.InsideMovesOn | 02_cuat/server/src/httpserver.cpp:67-93 | Each read or write inside a critical section keeps the process at its place between the record before and the record after the section. |
| ClientCount.StepKeepsInv | 02_cuat/server/lib_src/sem.cpp:85-121 | Every single read, write, decrement or increment by any process keeps semaphore, holder and record in agreement. |
| ClientCount.RunKeepsInv | 02_cuat/server/src/httpserver.cpp:67-93 | That holds for any number of processes under every schedule. |
| ClientCount.Linearizes | 02_cuat/server/src/httpserver.cpp:67-291 | At most one process is inside a section; whenever none is, the record is what the finished sections leave when run one after the other with the answers they gave. |
| ClientCount.CountOfHistory | 02_cuat/server/src/httpserver.cpp:74-93 | In every sequential history the count is accepted minus counted, at least 0 and at most the largest limit ever in force. |
| ClientCount.NoUpdateLost | 02_cuat/server/src/httpserver.cpp:67-93 | No update is lost under any schedule: `client_count` is accepted `GET /` minus `POST /dc` that found it positive; never above the current limit while that is not lowered. |
| ClientCount.NeverNegative | 02_cuat/server/src/httpserver.cpp:75-91 | The bounds hold at every instant, inside sections too. |
| ClientCount.VerdictsAreRight | 02_cuat/server/src/httpserver.cpp:75-91 | Under every schedule a visitor is let in just when the count is below the limit, and a client is counted out just when there is one. |
| ClientCount.StoresExactlyWhen | 02_cuat/server/src/httpserver.cpp:263-264 | A configuration update stores a limit just when it is at least one. |
| ClientCount.TwoInsideLoseAnUpdate | 02_cuat/server/src/httpserver.cpp:86-93 | With a semaphore that lets two in, two visitors are accepted and the count rises by one: mutual exclusion is needed. |
| HttpRequest.ReadRequest | 02_cuat/server/src/httpserver.cpp:118-149 | The scanner returns -1 exactly for a failed read or a prefetch, else leaves the method class and route of the first two separators, and reports exactly the routes that overflow their buffer. |
| HttpRequest.RequestLineRoundTrip | 02_cuat/server/src/httpserver.cpp:128-147 | `method SP route SP rest` scans to exactly that route and method class, whatever the request held before; it fits exactly below 256 characters. |
| HttpRequest.ScanIsASplit | 02_cuat/server/src/httpserver.cpp:128-147 | Conversely a message with two separators is the three parts the scanner found. |
| HttpRequest.IncompleteKeepsRoute | 02_cuat/server/src/httpserver.cpp:128-147 | With fewer than two separators the route stays as it was, without any the method too; a leading space makes the method invalid. |
| HttpRequest.RefusedExactlyWhen | 02_cuat/server/src/httpserver.cpp:125-127 | A message is refused for prefetching if and only if it contains `Purpose: prefetch`, at whatever place. |
| Dispatch.SectionOfRequestLine | 02_cuat/server/src/httpserver.cpp:70-104 | A request line enters the counting sections exactly when it is `GET /` or `POST /dc`. |
| HttpResponse.Fread | 02_cuat/server/src/httpserver.cpp:202 | What a read of a file that stays as it is may deliver: any part of what is left, with end of file only at its end. |
| HttpResponse.Assemble | 02_cuat/server/src/httpserver.cpp:194-213 | However `fread` splits the file, the answer is the header followed by exactly the file. |
| HttpResponse.ReceivesJoined | 02_cuat/server/src/httpserver.cpp:180-189 | A client that reads lines up to the blank one gets back exactly the header lines and the body. |
| HttpResponse.WholeHeader | 02_cuat/server/src/httpserver.cpp:180-198 | For every body: the header lines are separated from it without loss. |
| HttpResponse.Header | 02_cuat/server/src/httpserver.cpp:180-198 | For the server's own header and every body a client gets back exactly the seven lines and the body. |
| HttpResponse.DeclaresLength | 02_cuat/server/src/httpserver.cpp:180-189 | The first line that starts with Content-Length is the fourth, and its number is the one put in. |
| HttpResponse.FieldsAreRead | 02_cuat/server/src/httpserver.cpp:180-189 | A client reads the status, server, date, content type and connection where it looks for them by name. |
| HttpResponse.ContentLengthIsBodyLength | 02_cuat/server/src/httpserver.cpp:184-198 | Of every answer: the number a client reads after Content-Length is the length of what follows the header. |
| HttpResponse.Filled | 02_cuat/server/src/httpserver.cpp:194-213 | The buffer is the header followed by the file, or by the text that stands in the response instead of a file name. |
| HttpResponse.Response | 02_cuat/server/src/httpserver.cpp:157-213 | The whole answer: a client finds the status line first, the content type, connection, server and date under their names, exactly the file or text after the header, and its length declared. |
| Configuration.Server.constructor | 02_cuat/server/src/httpserver.cpp:228-232 | The record and its free semaphore before an update. |
| Configuration.Server.ApplyLine | 02_cuat/server/src/httpserver.cpp:245-288 | One line changes at most its own setting, to an accepted value; it fails exactly on a key or value that is missing. |
| Configuration.Server.UpdateConfiguration | 02_cuat/server/src/httpserver.cpp:228-292 | After the loop each setting is the last accepted value given for it or its old value; an unreadable file gives the defaults; the semaphore is back exactly when no line was malformed. |
| Configuration.OneMoreLine | 02_cuat/server/src/httpserver.cpp:244-289 | Looking for the last accepted value is the same as applying the lines one after the other. |
| Configuration.LastLineWins | 02_cuat/server/src/httpserver.cpp:244-289 | A setting ends with the value of its last accepted line. |
| Configuration.NoLineKeeps | 02_cuat/server/src/httpserver.cpp:244-289 | Without an accepted line it keeps its value. |
| Configuration.OnlyPositiveValues | 02_cuat/server/src/httpserver.cpp:253-279 | A setting only ever changes to a value of at least one. |
| Configuration.KeyValueLine | 02_cuat/server/src/httpserver.cpp:246-251 | `key=value` sets that key to that number; anything after a second `=` is ignored. |
| Configuration.AtoiOfSigned | 02_cuat/server/src/httpserver.cpp:253 | Blanks, a sign or none and a numeral read as the signed number, whatever follows that is no digit. |
| Configuration.AtoiOfText | 02_cuat/server/src/httpserver.cpp:253 | A text that does not start with a number reads as zero. |
| Configuration.KeysAndDefaults | 02_cuat/server/include/httpserver.h:17-20 | The four keys by their names, and the defaults 2, 1000, 1000 and 5 that zero and an unreadable file stand for. |
| Configuration.LineSets | 02_cuat/server/src/httpserver.cpp:252-279 | `key=value` replaces exactly the field of that key: by the number from 1 up, by its default for 0, by nothing below 0. |
| Configuration.NegativeLineChangesNothing | 02_cuat/server/src/httpserver.cpp:252-285 | A `key=-n` line anywhere leaves every setting as it is. |
| Configuration.NoNumberSetsDefault | 02_cuat/server/src/httpserver.cpp:252-279 | A key with zero or no number gets its default, and nothing else changes. |
| Configuration.LastLineNeedsNoEnd | 02_cuat/server/src/httpserver.cpp:244-246 | A last line without its line end counts like any other. |
| Configuration.LongLineIsCut | 02_cuat/server/src/httpserver.cpp:244 | A line of 254 characters and more is read in pieces of 254. |
| Configuration.KeyWithoutValueCrashes | 02_cuat/server/src/httpserver.cpp:251-253 | A known key without a value makes `atoi` dereference a null pointer. |
| Configuration.CrashesExactlyWhen | 02_cuat/server/src/httpserver.cpp:246-275 | A line dereferences a null pointer if and only if it is made of `=` alone, or of one of the four keys with nothing but `=` around it. |
| Configuration.WrittenFileReadsBack | 02_cuat/server/src/httpserver.cpp:228-292 | Round trip: reading a file of `key=number` lines makes exactly the assignments it lists, in order. |
| TempSensor.Sensor.constructor | 02_cuat/server/src/temp_sensor.cpp:19-23 | The locals of the thread before its first round. |
| TempSensor.Sensor.Turn | 02_cuat/server/src/temp_sensor.cpp:33-64 | One round stores the reading, publishes the sum over the ring by the count and moves the index on, or is reported to write outside the ring. |
| TempSensor.Refill | 02_cuat/server/src/temp_sensor.cpp:41-45 | A change of the count leaves a ring of that size filled with 25. |
| TempSensor.SumOf | 02_cuat/server/src/temp_sensor.cpp:51-54 | The loop sums the first samples of the ring. |
| TempSensor.ReadSensor | 02_cuat/server/src/temp_sensor.cpp:33-67 | The thread publishes what the fold over its rounds says and leaves its ring exactly on the runs that are not safe. |
| TempSensor.PublishedAt | 02_cuat/server/src/temp_sensor.cpp:33-67 | What is published at a round depends only on the rounds up to it. |
| TempSensor.ZeroRound | 02_cuat/server/src/temp_sensor.cpp:37-39 | With a configured count of zero nothing is read or published, and the index starts over. |
| TempSensor.RingIsWindow | 02_cuat/server/src/temp_sensor.cpp:41-64 | Read from the index on, the ring is the window of the last N readings since the refill, padded with 25s. |
| TempSensor.PublishesMovingAverage | 02_cuat/server/src/temp_sensor.cpp:50-57 | The published value is the mean of that window, for any start index and any number of rounds. |
| TempSensor.AverageWithinWindow | 02_cuat/server/src/temp_sensor.cpp:50-57 | It lies within any bounds on the window's samples. |
| TempSensor.NeverLoweredIsSafe | 02_cuat/server/src/temp_sensor.cpp:60-64 | If the count never goes down the ring index always stays inside. |
| TempSensor.SteadyPublishes | 02_cuat/server/src/temp_sensor.cpp:33-67 | With a steady count n, from the n-th reading on exactly the mean of the last n is published. |
| TempSensor.SafeExactlyWhen | 02_cuat/server/src/temp_sensor.cpp:33-67 | For every run: the ring index stays inside if and only if every count that is not zero exceeds the index that the counts before it lead to; the readings do not matter. |
| TempSensor.IndexRunsRound | 02_cuat/server/src/temp_sensor.cpp:60-64 | While the count stays the same and ahead of the index, the index runs round the ring. |
| TempSensor.SwitchIsSafeExactlyWhen | 02_cuat/server/src/temp_sensor.cpp:41-64 | After any safe counts a change to m for any number of rounds is safe if and only if m is ahead of the index. |
| TempSensor.ChangingIsSafeExactlyWhen | 02_cuat/server/src/temp_sensor.cpp:41-64 | A count of n for k rounds, m for l rounds and then o: inside if and only if k mod n is below m and (k mod n + l) mod m is below o, whichever way the count moves. |
| TempSensor.LoweringIsSafeExactlyWhen | 02_cuat/server/src/temp_sensor.cpp:41-50 | Lowering the count from n to m after k readings stays inside the ring exactly when k mod n is below m. |
| Bmp280.Sensor.constructor | 02_cuat/driver/src/bmp280.c:40-45 | The calibration words are assembled from two register reads each, error results included; the unit starts as Celsius. |
| Bmp280.Sensor.SetUnit | 02_cuat/driver/src/bmp280.c:106-108 | The unit is changed and nothing else. |
| Bmp280.Sensor.ReadTemperature | 02_cuat/driver/src/bmp280.c:65-92 | An error of any of the three reads gives the error value; otherwise the result is the 32-bit compensation in the configured unit, equal to the unbounded formula whenever the three products fit. |
| Bmp280.InUnit | 02_cuat/driver/src/bmp280.c:81-90 | Kelvin is 273.15 above Celsius; Fahrenheit is nine fifths plus 32 with less than a hundredth lost, toward zero. |
| Bmp280.AssembleCases | 02_cuat/driver/src/bmp280.c:40-45 | Two bytes make a word; a failed low byte makes it -1, a failed high byte 256 less than the low one. |
| Bmp280.RoundedIsNearest | 02_cuat/driver/src/bmp280.c:79 | The last shift rounds five times the sum to 256ths, half a unit off at most. |
| Bmp280.SumFits | 02_cuat/driver/src/bmp280.c:77-79 | When the three products fit 32 bits, so does everything computed from them. |
| Bmp280.WrappedIsExact | 02_cuat/driver/src/bmp280.c:77-79 | Then no wrap-around takes place anywhere. |
| Bmp280.SumNeverWraps | 02_cuat/driver/src/bmp280.c:79 | Whatever the two 32-bit terms are, their sum and its rounding never wrap. |
| Bmp280.NearCalibrationFits | 02_cuat/driver/src/bmp280.c:77-79 | The products fit for all calibration words below 2^15 and raw readings within 2^18 of 16 times T1. |
| Bmp280.LinearError | 02_cuat/driver/src/bmp280.c:77 | The linear term is at most 17 units below the exact one. |
| Bmp280.QuadraticError | 02_cuat/driver/src/bmp280.c:78 | The quadratic term is within 49 units of the exact one. |
| Bmp280.WithinTwoHundredths | 02_cuat/driver/src/bmp280.c:74-79 | The reading is within 0.02 degrees of the exact polynomial of section 3.11.3 of the BMP280 data sheet. |
| Bmp280.AssembledIsStored | 02_cuat/driver/src/bmp280.c:42-45 | The two bytes of a signed calibration word are assembled to its unsigned reading. |
| Bmp280.LinearSignError | 02_cuat/driver/src/bmp280.c:77 | The driver's 32-bit linear term, with T2 negative, is the data sheet's displaced by 32 times the fine difference and wrapped to 21 bits. |
| Bmp280.LinearRightExactlyWhen | 02_cuat/driver/src/bmp280.c:77 | It is the data sheet's if and only if T2 is not negative or the fine difference is a multiple of 2^16. |
| Bmp280.QuadraticSignError | 02_cuat/driver/src/bmp280.c:78 | The driver's 32-bit quadratic term, with T3 negative, is the data sheet's displaced by four times the square and wrapped to 18 bits. |
| Bmp280.QuadraticRightExactlyWhen | 02_cuat/driver/src/bmp280.c:78 | It is the data sheet's if and only if T3 is not negative or the square is a multiple of 2^16. |
| Bmp280.SignErrorSize | 02_cuat/driver/src/bmp280.c:74-79 | While the products fit, the driver's 32-bit reading is off by 5/256 of the two displacements, to less than a hundredth. |
| Bmp280.MeetsDataSheetExactlyWhen | 02_cuat/driver/src/bmp280.c:40-45 | The driver's 32-bit reading is the data sheet's for every raw reading whose data sheet arithmetic fits 32 bits, if and only if neither T2 nor T3 is negative. |
| Bmp280.NegativeT3IsMissed | 02_cuat/driver/src/bmp280.c:44-45 | Every negative T3 costs the driver's 32-bit reading at least 0.13 degrees once the coarse difference reaches 832, as long as the products of the stored words fit. |
| Bmp280.WrapAroundHidesNegativeT3 | 02_cuat/driver/src/bmp280.c:77-79 | Where they do not fit, wrap-around can undo the missing sign: at a coarse difference of 2^14 the driver is right for every negative T3. |
| Bmp280.DataSheetExample | 02_cuat/driver/src/bmp280.c:40-45 | The data sheet's example of 25.08 degrees is read as 29.83. |
| TempText.CharDeviceRead | 02_cuat/driver/src/char_device.c:119-139 | A failed reading fails the read; otherwise the first bytes of the terminated text are copied, as many as asked for or as there are. |
| TempText.FitsExactlyBelowTenMillion | 02_cuat/driver/src/char_device.c:129 | The text fits the ten-byte buffer exactly below 10^7 hundredths. |
| TempText.TextOf | 02_cuat/driver/src/char_device.c:129 | From zero up the text is the degrees, a point, two digits of hundredths and the only newline. |
| TempText.TextBelowZero | 02_cuat/driver/src/char_device.c:129 | Below zero the degrees and the hundredths each have their own sign, or the hundredths are 00. |
| TempText.ReadsBackPositive | 02_cuat/server/src/temp_sensor.cpp:49-50 | Every temperature from 0 to below 10^7 hundredths is parsed back exactly. |
| TempText.ReadsBackWholeDegrees | 02_cuat/server/src/temp_sensor.cpp:49-50 | So is every negative number of whole degrees. |
| TempText.LosesNegativeFraction | 02_cuat/driver/src/char_device.c:129 | Any other negative temperature is parsed without its fraction. |
| TempText.ReadsBackExactlyWhen | 02_cuat/driver/src/char_device.c:124-138 | Below 10^7 either way, the round trip is exact if and only if the temperature is not negative or a whole number of degrees. |
| TemperaturePath.ServerReadsWithinTwoHundredths | 02_cuat/server/src/temp_sensor.cpp:49-50 | Driver and server together: what is parsed is within 0.02 degrees of the data sheet's polynomial. |
| TemperaturePath.PublishesMeanOfLatest | 02_cuat/server/src/temp_sensor.cpp:49-57 | With a steady count n, the mean of what was parsed of the last n raw readings is published. |
| TemperaturePath.PublishedIsAccurate | 02_cuat/server/src/temp_sensor.cpp:33-67 | End to end: what is published is within 0.02 degrees of the mean of the exact temperatures of the last n raw readings. |
| TimerMasks.TimerEnable | 01_cuat/tp_01_06/inc/kernel/drivers/timer.h:68 | The mask operation on the 32-bit word: sets bit 7 and no other. |
| TimerMasks.TimerDisable | 01_cuat/tp_01_06/inc/kernel/drivers/timer.h:69 | The mask operation on the 32-bit word: clears bit 7 and no other. |
| TimerMasks.TimerFreeRunning | 01_cuat/tp_01_06/inc/kernel/drivers/timer.h:70 | The mask operation on the 32-bit word: sets bit 6 and no other. |
| TimerMasks.TimerPeriodic | 01_cuat/tp_01_06/inc/kernel/drivers/timer.h:71 | The mask operation on the 32-bit word: clears bit 6 and no other. |
| TimerMasks.TimerEnableInt | 01_cuat/tp_01_06/inc/kernel/drivers/timer.h:72 | The mask operation on the 32-bit word: sets bit 5 and no other. |
| TimerMasks.TimerDisableInt | 01_cuat/tp_01_06/inc/kernel/drivers/timer.h:73 | The mask operation on the 32-bit word: clears bit 5 and no other. |
| TimerMasks.TimerPrescale1 | 01_cuat/tp_01_06/inc/kernel/drivers/timer.h:74 | The mask operation on the 32-bit word: clears bits 3 and 2 and no other. |
| TimerMasks.TimerSize32Bit | 01_cuat/tp_01_06/inc/kernel/drivers/timer.h:77 | The mask operation on the 32-bit word: sets bit 1 and no other. |
| TimerMasks.TimerOneShot | 01_cuat/tp_01_06/inc/kernel/drivers/timer.h:79 | The mask operation on the 32-bit word: sets bit 0 and no other. |
| TimerMasks.TimerWrapping | 01_cuat/tp_01_06/inc/kernel/drivers/timer.h:80 | The mask operation on the 32-bit word: clears bit 0 and no other. |
| TimerControl.Timer.constructor | 01_cuat/tp_01_06/inc/kernel/drivers/timer.h:68-80 | CONTROL may hold anything at first. |
| TimerControl.Timer.Init | 01_cuat/tp_01_06/src/kernel/drivers/timer.c:87-102 | LOAD and VALUE both hold the given count afterwards, and CONTROL what the operation means (StepRefines, BitsOfModes). |
| TimerControl.Timer.SetMode | 01_cuat/tp_01_06/src/kernel/drivers/timer.c:172-189 | The bit macros of a mode change, with the inverted names of the source. |
| TimerControl.Timer.LoadUs | 01_cuat/tp_01_06/src/kernel/drivers/timer.c:158-160 | Only LOAD changes. |
| TimerControl.Timer.LoadMs | 01_cuat/tp_01_06/src/kernel/drivers/timer.c:145-147 | LOAD takes the product modulo 2^32. |
| TimerControl.Timer.EnableInterrupt | 01_cuat/tp_01_06/src/kernel/drivers/timer.c:197-200 | Only the interrupt bit changes. |
| TimerControl.Timer.DisableInterrupt | 01_cuat/tp_01_06/src/kernel/drivers/timer.c:208-211 | Only the interrupt bit changes. |
| TimerControl.Timer.Resume | 01_cuat/tp_01_06/src/kernel/drivers/timer.c:110-112 | Only the enable bit changes. |
| TimerControl.Timer.Pause | 01_cuat/tp_01_06/src/kernel/drivers/timer.c:120-122 | Only the enable bit changes. |
| TimerControl.Timer.Reset | 01_cuat/tp_01_06/src/kernel/drivers/timer.c:131-134 | VALUE is what LOAD was and still is, and the timer is enabled. |
| TimerControl.Timer.TimeMs | 01_cuat/tp_01_06/src/kernel/drivers/timer.c:231-233 | The result is the time left rounded up to milliseconds if and only if the register is at most 2^32 - 1000; above that it is zero. |
| TimerControl.StepRefines | 01_cuat/tp_01_06/inc/kernel/drivers/timer.h:68-80 | Every operation does to the decoded CONTROL what it means for an abstract record, and leaves the fields it does not own. |
| TimerControl.BitsOfModes | 01_cuat/tp_01_06/src/kernel/drivers/timer.c:87-189 | By bit positions: what each mode and an initialisation set, clear and leave in CONTROL. |
| TimerControl.RunRefines | 01_cuat/tp_01_06/src/kernel/drivers/timer.c:87-211 | Any sequence of operations from any register contents keeps CONTROL an encoding of that record. |
| TimerControl.LastModeWins | 01_cuat/tp_01_06/src/kernel/drivers/timer.c:172-189 | The mode in force is the last one set, whatever came before, one-shot dominating the cyclic bit. |
| TimerControl.OtherBitsSurvive | 01_cuat/tp_01_06/inc/kernel/drivers/timer.h:68-80 | Bits outside the driver's fields are never changed. |
| TimerControl.RoundsUpExactlyWhen | 01_cuat/tp_01_06/src/kernel/drivers/timer.c:223-233 | Rounding upwards, as documented, holds exactly for registers of at most 2^32 - 1000. |
| TimerControl.MillisecondsReadBackExactlyWhen | 01_cuat/tp_01_06/src/kernel/drivers/timer.c:145-147 | Loading milliseconds and reading them back agrees exactly when their microseconds are at most 2^32 - 1000. |

## Left out

- I2cLinearizability.Linearizes: runs with a timeout are excluded, because LinearizesExactlyWhen shows that the statement then fails; MutexAlways and SlavesFollowLog cover them, and RecoversWhenSettled covers what follows once nothing is in flight any more.
- I2cLinearizability.UnlockAgreesWithSlave: a register that the slave has changed by itself between the access and the unlock has that later value, and the access the one before; Linearizes states that case through the log.
- I2cBus: signals do not end a wait, arbitration loss and missing acknowledgement only print, the busy bit is the transfer in progress, status bits may merge, FIFO thresholds are one byte; clock wake-up, reset, device tree and register mapping are not modelled.
- I2cProgress.CanUnlockExactlyWhen: says that the holder can get on, not that a scheduler lets it; the fairness of the interrupt controller and of the kernel is not modelled.
- WholeReading.ReturnsWholeExactlyWhen: is about one reader, because with more a call can return the byte of another (ReturnsAreRightExactlyWhen).
- I2cHandler: a call ends once nothing arrives any more; an index outside g_write is reported and not followed further; LengthNeverUnderflows excludes it on every run without timeouts.
- KernelRandom.RandomSource.GetRandom: signed overflow of the 64-bit expression, undefined in C, is two's complement wrap-around.
- Scheduler: only USR and SYS code is interrupted, page tables are words, __critical_error is reported as halted, the adjustment of the link register in the undefined-instruction vector and the boot code before the first interrupt are not modelled; r0 to r12 and the NEON registers are sequences.
- Scheduler.Kernel.IrqHandler: the handlers of TIMER1 to TIMER7 are taken to change nothing of the scheduler.
- VirtualCpu.RunsLikePrivateCpus: TIMER0 is the only interrupt; OtherTimerUnnoticedExactlyWhen and SoftwareUnnoticedExactlyWhen state what the others do. Memory is not part of a task's state.
- MemTest: faults other than stuck bits, and the alignment of addresses, are not modelled; a round of each do-while loop is a method of its own.
- ClientCount: semop succeeds and no process dies inside a section; the sleep before GET / and reads of the record outside sections change nothing.
- ClientCount.NoUpdateLost: covers client_count, max_clients and temp; the other settings of an update are in Configuration.
- Configuration: numbers that overflow an int, NUL characters inside lines and read errors are not modelled; a run that dereferences a null pointer is reported as crashed.
- Configuration.WrittenFileReadsBack: needs numbers of 1 and up that fit an int, because zero stands for the default and atoi of larger ones is undefined.
- HttpRequest.ReadRequest: the message is what is in the buffer up to its terminator, so a full buffer without one is not modelled; a route longer than its buffer is reported and not followed further.
- HttpResponse.Assemble: the file opens, stays unchanged and is read without error, and the header fits its buffer; partial sends of Socket::write are not modelled.
- HttpResponse.Response: the texts put into the header contain no line end, which holds of the tables of the server.
- TempSensor: samples are exact reals and not floats; a read of the device that fails leaves stale text, here any reading.
- Bmp280.WithinTwoHundredths: needs T2 and T3 below 2^15 and products that fit 32 bits, because a negative word is read without its sign (MeetsDataSheetExactlyWhen); SignErrorSize says how far off such a reading is, NearCalibrationFits gives a range of raw readings that fit.
- Bmp280.Sensor.ReadTemperature: the bitwise or of disjoint bytes is their sum; a temperature equal to the error value -6666 is not told apart from an error, as in the source.
- TempText.ReadsBackExactlyWhen: atof is modelled for texts without leading blanks and exponents, which are all the driver prints; temperatures of 10^7 hundredths and more are beyond what 32-bit compensation of any reading gives in Celsius.
- TimerControl: what the hardware does when LOAD or VALUE is written, the interrupt controller, the system controller and the interrupt handlers are not modelled.
- The wrappers around semaphores, sockets, threads, signals, message queues and shared memory, the HTML and JavaScript, ioctl, build files and the earlier copies of the kernel in tp_01_03 to tp_01_05 are left out, as is page-table set-up and the decoding of aborts.
