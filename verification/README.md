# DeviceDriver kata — a Dafny model

The `DeviceDriver` class sits between an operating system and a flash memory
device (`FlashMemoryDevice`). It offers two operations:

- **`read(address)`** reads a byte once. It then checks the byte is reliable
  by reading the same address four more times (`HARDWARE_ACCESS_TRY = 5`
  reads in all). Before each of these confirmation reads it busy-waits until
  at least 200 ms have passed since the last checkpoint. The first
  confirmation that disagrees ends the call with `ReadFailException`.
- **`write(address, data)`** reads the address once. It refuses with
  `WriteFailException` unless the cell reads as erased (`0xFF`). Otherwise it
  writes `data`.

The model is functional. The device is an immutable oracle (`Hardware.Device`):

- per address, a queue of scripted answers (a byte or a raised fault);
- after the queue, the stable cell contents, with erased `0xFF` for a cell
  never written;
- per address, the fault a write raises, if any, and what the cell holds
  after that failed write;
- a fixed per-call latency on an integer millisecond clock.

Each driver operation is a pure function. It takes an `Env` (device, clock,
and the trace of hardware calls and waits so far) and returns the result with
the new `Env`. The driver's exceptions become `Failure` values:

- `Unstable` for `ReadFailException`;
- `NotErased` for `WriteFailException`;
- `Hardware(fault)` for a fault the device raised, passed on unchanged.

The properties are stated against reference descriptions that are
independent of the driver:

- `Hardware.Upcoming`: the answers the device will give next;
- `ReadProperties.ReadSchedule`: the exact trace of a read that issues `n`
  hardware reads;
- `ReadProperties.Paced`: the pacing promise of the confirmation loop.

A read whose first hardware read returns a byte issues 2 to 5 reads
(`ReadProperties.ReadIsPaced`); one whose first read raises issues exactly
one (`ReadProperties.ReadFirstFault`).

`ReadLoop.ReadWithLoop` runs the confirmation loop the way the Java `read`
does, with a counter and a checkpoint. It is proved equal to the functional model.

Modules: `Hardware` (device oracle), `DeviceDriver` (the driver),
`ReadProperties`, `WriteProperties`, `ReadLoop`, `Scenarios` (the situations
the JUnit tests set up).

`DeviceDriver.java` types the address as a Java `long` and does no range
check, so `Address` is the signed 64-bit range. Bytes are
`bv8`. The driver only compares them for equality, so Java's signed `byte`
changes nothing.

## Model

| member | source | states |
|---|---|---|
| DeviceDriver.Read | src/main/java/DeviceDriver.java:16-20 | A read never changes the cell contents or the write faults. When it succeeds, the value it returns is the device's first answer for the address. |
| DeviceDriver.Confirm | src/main/java/DeviceDriver.java:22-31 | The confirmation loop never changes contents, write faults or latency. The clock never goes back. Once the counter reaches `HARDWARE_ACCESS_TRY`, the loop does nothing and succeeds. |
| DeviceDriver.CheckReliability | src/main/java/DeviceDriver.java:22-31 | The reliability check, from the checkpoint it takes on entry, only reads: no cell, write fault or latency changes, and time does not go back. |
| ReadProperties.CheckReliabilityOutcome | src/main/java/DeviceDriver.java:22-31 | The reliability check succeeds if and only if the next four answers are all the expected byte. Otherwise the first other answer decides the failure: its fault, or `Unstable`. The trace is exactly the reference `Confirmations` of the iterations run, and exactly those answers are consumed. |
| Hardware.DeviceRead | src/main/java/DeviceDriver.java:17 | One `hardware.read` call, as at lines 17, 26 and 34: it answers the next upcoming answer for the address, uses up exactly that one answer, takes one latency, and records one read of the address at the time it was issued. |
| Hardware.DeviceWrite | src/main/java/DeviceDriver.java:37 | The `hardware.write` call: it records one write of the data at the time it was issued and takes one latency. It raises exactly when the address has a write fault, and then the cell holds what the device leaves there; otherwise the cell holds the data. No other cell, no queued answer, write fault or latency changes. |
| Hardware.WaitSince | src/main/java/DeviceDriver.java:25 | The busy wait ends no earlier than `gap` ms after the checkpoint and never before the current time. It ends at once when that much time has already passed. It does not touch the device, and it records one `Wait` event. |
| DeviceDriver.Write | src/main/java/DeviceDriver.java:33-38 | Outcome for each first answer: a fault propagates; a non-erased byte gives `NotErased`; an erased byte gives success or the device's write fault. Trace: exactly one read of the address, then exactly one write of `data` only when that read showed `0xFF`. On success the cell holds `data`. When no write is issued, the device is only one answer further on. After a failed write, the cell holds whatever the device left there. No other cell's contents change, every address's queued answers are those left after the one read, and the write faults and latency stay as they were. |
| ReadProperties.ReadOutcome | src/main/java/DeviceDriver.java:16-31 | When the first answer is a value and confirmation `k` is the first to differ (`k = 5` when none does): the result is that value if `k = 5`, else the fault raised or `Unstable`. The trace is exactly `ReadSchedule` of `k + 1` reads (5 when none differ). Exactly that many answers are consumed. |
| ReadProperties.ReadFirstFault | src/main/java/DeviceDriver.java:16-18 | A fault on the first hardware read propagates unchanged. Nothing else is issued. |
| ReadProperties.ReadStable | src/main/java/DeviceDriver.java:16-31 | Five equal answers `v` give `v`, after exactly 5 hardware reads, all of the same address, paced, and no write. |
| ReadProperties.ReadUnstableAt | src/main/java/DeviceDriver.java:24-28 | Confirmation `k` (1 ≤ k ≤ 4) is the first to differ with another byte: `Unstable` after exactly `k + 1` reads. No further read is issued and only `k + 1` answers are consumed. |
| ReadProperties.ReadSucceedsIff | src/main/java/DeviceDriver.java:17-28 | A read succeeds if and only if the first answer is a value and answers 1..4 all equal it. It then returns that value. |
| ReadProperties.SingleChangeFails | src/test/java/DeviceDriverTest.java:81-97 | Changing any one of five equal answers to another byte makes the read fail with `Unstable`, position 0 included. |
| ReadProperties.ReadIsPaced | src/main/java/DeviceDriver.java:23-29 | For every device: the trace of a read contains only reads of the address and waits, in alternation, starting and ending with a read. It holds between 1 and 5 reads, at least 2 unless the first read raises. Each wait lasts at least 200 ms from its checkpoint. Checkpoints are taken when the read before them returns. Reads are at least 200 ms apart. |
| ReadProperties.ScheduleFacts | src/main/java/DeviceDriver.java:23-29 | The reference trace of `n` reads has `2n - 1` events, starts with the read at the call time, holds exactly `n` reads of the address, and is paced. |
| ReadProperties.ScheduleShape | src/main/java/DeviceDriver.java:24-26 | The shape half of `ScheduleFacts`: length, first event, read count, and read/wait alternation. |
| ReadProperties.SchedulePaced | src/main/java/DeviceDriver.java:23-29 | The timing half of `ScheduleFacts`: waits of at least 200 ms, checkpoints when reads return, reads when waits end, reads at least 200 ms apart. |
| ReadProperties.ConfirmOutcome | src/main/java/DeviceDriver.java:24-30 | The confirmation loop from iteration `i`, when answer `k` is the first other than the expected byte: it succeeds exactly when there is no such answer, otherwise fails with the fault or `Unstable`. Its trace is exactly `Confirmations` of the iterations run. It consumes exactly that many answers. |
| ReadProperties.ConfirmStep | src/main/java/DeviceDriver.java:25-29 | One loop iteration: wait 200 ms from the checkpoint, read. Stop with the fault or `Unstable` on any other answer. Otherwise take a new checkpoint and go on. |
| WriteProperties.WriteNotErased | src/main/java/DeviceDriver.java:33-36 | A cell that reads other than `0xFF`: `NotErased`, one read, no write, contents untouched. |
| WriteProperties.WriteErased | src/main/java/DeviceDriver.java:34-37 | A cell that reads `0xFF` (no write fault): success, exactly one read then exactly one write of `data` to the address. The new contents are the old ones with that one cell set to `data`, and the device is otherwise exactly as after that one read. |
| WriteProperties.WriteThenRead | src/main/java/DeviceDriver.java:16-38 | A successful write followed by a read of the same cell returns the byte written, when no flaky answers are queued for that cell beyond the write's own read. |
| ReadLoop.ReadWithLoop | src/main/java/DeviceDriver.java:22-31 | The counted loop with a refreshed checkpoint gives the same result, device and trace as `DeviceDriver.Read`. |
| Scenarios.ReadOfSteadyCell | src/test/java/DeviceDriverTest.java:43-56 | Five equal answers at address `0xFF`: the read returns the byte after exactly 5 hardware reads, all of address `0xFF`. |
| Scenarios.ReadOfFlakyCell | src/test/java/DeviceDriverTest.java:83-97 | Answers 1, 1, 2, 1, 1: `Unstable` after exactly 3 hardware reads. |
| Scenarios.WriteToErasedCell | src/test/java/DeviceDriverTest.java:104-113 | For every address and data byte, the test's pairs `(0xFF, 1)` and `(0xF3, 2)` included: a cell that reads `0xFF` gives success with exactly one read and one write of the data. |
| Scenarios.WriteToWrittenCell | src/test/java/DeviceDriverTest.java:116-125 | A cell that reads `0x00`: `NotErased` and no write. |

## Left out

- The wall clock: `LocalDateTime.now()` and the `ChronoUnit` polling loop become an integer clock that each hardware call advances by a fixed latency, plus a `Wait` event. The wait ends at the first instant allowed. No upper bound on how long a real wait takes is modelled. `LocalDateTime.now()` is local wall-clock time, which a daylight-saving change or a clock adjustment can move back or forward during the wait; the model's clock only moves forward, so "the clock never goes back" (`DeviceDriver.Confirm`, `DeviceDriver.CheckReliability`) and "reads are at least 200 ms apart" (`ReadProperties.ReadIsPaced`) hold for an idealised monotone clock, not for real time.
- The test's assertion that reads are exactly 200 ms apart: the code only promises at least 200 ms. With a nonzero latency, the model's spacing is 200 ms plus the latency.
- `FlashMemoryDevice` implementations and the `ReadFailException` / `WriteFailException` classes are not part of this model. The device is an oracle and the exceptions are `Failure` values.
- The source of the `FlashMemoryDevice` interface, with the `throws` clauses of its `read` and `write`, is not part of this model. A fault raised by the device is modelled as `Hardware(fault)` and passed on unchanged. What a cell holds after its write raised is left to the device (`Hardware.WriteFault.leaves`): the model promises nothing about it.
- Thread safety and concurrent use: the code has no locking and assumes one caller at a time. The model has one sequential environment.
- The constructor only stores the device. In the model the device is a field of `Env`.
- WriteProperties.WriteThenRead: requires that at most one scripted answer is queued for the cell. A cell whose queue has more flaky answers may give other bytes after the write, as the oracle allows.
