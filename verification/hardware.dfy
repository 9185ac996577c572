/**
  The flash-memory device the driver talks to, modelled as an oracle.

  The device itself is an external collaborator: the driver only sees two
  calls, `read(address) -> byte` and `write(address, byte)`, either of which
  may raise a hardware fault. A `Device` fixes every answer in advance:

  - `script[a]` is the queue of answers the next reads of `a` return, one per
    read (this is how a flaky cell is described);
  - once the queue of `a` is exhausted, reads of `a` return the stable cell
    contents, `contents[a]`, or the erased value for a cell never written;
  - `writeFaults[a]` is the fault a write of `a` raises, if any, together
    with what the cell holds after that failed write;
  - every hardware call takes `latency` milliseconds on an abstract clock.

  An `Env` is the device together with the clock and the trace of hardware
  calls seen so far; every call appends one `Event` to the trace.
 */
module Hardware {

  /** An 8-bit value; the driver only compares bytes for equality, so the
      signedness of Java's `byte` does not matter. */
  type Byte = bv8

  const MIN_LONG: int := -0x8000_0000_0000_0000
  const MAX_LONG: int := 0x7FFF_FFFF_FFFF_FFFF

  /** A device address: `DeviceDriver.java` passes a Java `long` and does no
      range check of its own. */
  type Address = a: int | MIN_LONG <= a <= MAX_LONG

  /** The value an erased cell reads as: all bits set. */
  const ERASED: Byte := 0xFF

  /** A fault raised by the device itself; the code identifies the fault so
      that propagation can be stated as equality. */
  datatype Fault = Fault(code: nat)

  /** What one hardware read answers: a byte, or a raised fault. */
  datatype Response = Value(b: Byte) | Raise(fault: Fault)

  /** A write that raises `fault`. Nothing is known of a cell whose write
      failed, so the oracle also fixes what the cell holds afterwards,
      `leaves`: its old contents, the data, or anything else. */
  datatype WriteFault = WriteFault(fault: Fault, leaves: Byte)

  datatype Device = Device(
    script: map<Address, seq<Response>>,
    contents: map<Address, Byte>,
    writeFaults: map<Address, WriteFault>,
    latency: nat)

  /** One observable step: a hardware read or write issued at clock time
      `at`, or a busy wait measured from checkpoint `since` that ended at
      `until`. */
  datatype Event =
    | ReadCall(addr: Address, at: nat)
    | WriteCall(addr: Address, data: Byte, at: nat)
    | Wait(since: nat, until: nat)

  datatype Env = Env(device: Device, clock: nat, trace: seq<Event>)

  /** The result of a call together with the environment after it. */
  datatype Step<T> = Step(out: T, env: Env)

  /** The stable contents of a cell. */
  function Cell(d: Device, a: Address): Byte
  {
    if a in d.contents then d.contents[a] else ERASED
  }

  /** The scripted answers still queued for `a`. */
  function Script(d: Device, a: Address): seq<Response>
  {
    if a in d.script then d.script[a] else []
  }

  /** The answers the next `n` reads of `a` give, when nothing else touches
      the device in between: the queued answers first, then the stable
      contents, repeated. */
  function Upcoming(d: Device, a: Address, n: nat): (rs: seq<Response>)
    ensures |rs| == n
  {
    var s := Script(d, a);
    if n <= |s| then s[..n] else s + Repeat(Value(Cell(d, a)), n - |s|)
  }

  /** `n` copies of `x`. */
  function Repeat(x: Response, n: nat): (r: seq<Response>)
    ensures |r| == n
    ensures forall j :: 0 <= j < n ==> r[j] == x
  {
    if n == 0 then [] else [x] + Repeat(x, n - 1)
  }

  /** `s` without its first `n` elements, empty when it has fewer. */
  function Drop(s: seq<Response>, n: nat): seq<Response>
  {
    if n <= |s| then s[n..] else []
  }

  /** The device after `n` reads of `a`: only the answer queue of `a` moves. */
  function Consume(d: Device, a: Address, n: nat): (d': Device)
    ensures d'.contents == d.contents && d'.writeFaults == d.writeFaults
    ensures d'.latency == d.latency
    ensures Script(d', a) == Drop(Script(d, a), n)
    ensures forall b :: b != a ==> Script(d', b) == Script(d, b)
  {
    if a in d.script then d.(script := d.script[a := Drop(d.script[a], n)]) else d
  }

  /** `FlashMemoryDevice.read`: the next answer for `a`; takes one latency. */
  function DeviceRead(e: Env, a: Address): (r: Step<Response>)
    ensures r.out == Upcoming(e.device, a, 1)[0]
    ensures r.env.device == Consume(e.device, a, 1)
    ensures r.env.clock == e.clock + e.device.latency
    ensures r.env.trace == e.trace + [ReadCall(a, e.clock)]
  {
    var s := Script(e.device, a);
    var answer := if |s| > 0 then s[0] else Value(Cell(e.device, a));
    Step(answer, Env(Consume(e.device, a, 1), e.clock + e.device.latency, e.trace + [ReadCall(a, e.clock)]))
  }

  /** `FlashMemoryDevice.write`: either raises the cell's write fault,
      leaving the cell as the oracle says, or stores `data` at `a`; takes one
      latency. */
  function DeviceWrite(e: Env, a: Address, data: Byte): (r: Step<Option<Fault>>)
    ensures r.env.trace == e.trace + [WriteCall(a, data, e.clock)]
    ensures r.env.clock == e.clock + e.device.latency
    ensures a in e.device.writeFaults <==> r.out.Some?
    ensures r.out.Some? ==>
      r.out.value == e.device.writeFaults[a].fault && Cell(r.env.device, a) == e.device.writeFaults[a].leaves
    ensures r.out.None? ==> Cell(r.env.device, a) == data
    ensures forall b :: b != a ==> Cell(r.env.device, b) == Cell(e.device, b)
    ensures forall b :: Script(r.env.device, b) == Script(e.device, b)
    ensures r.env.device.writeFaults == e.device.writeFaults && r.env.device.latency == e.device.latency
  {
    var after := e.clock + e.device.latency;
    var trace := e.trace + [WriteCall(a, data, e.clock)];
    if a in e.device.writeFaults then
      var failed := e.device.writeFaults[a];
      Step(Some(failed.fault), Env(e.device.(contents := e.device.contents[a := failed.leaves]), after, trace))
    else
      Step(None, Env(e.device.(contents := e.device.contents[a := data]), after, trace))
  }

  /** The current clock reading (`LocalDateTime.now()`). */
  function Now(e: Env): nat
  {
    e.clock
  }

  /** A busy wait that polls the clock until at least `gap` milliseconds have
      passed since the checkpoint `since`. The model ends the wait at the
      first such instant; the device is not touched. */
  function WaitSince(e: Env, since: nat, gap: nat): (e': Env)
    ensures e'.clock >= since + gap && e'.clock >= e.clock
    ensures e.clock >= since + gap ==> e'.clock == e.clock
    ensures e'.device == e.device
    ensures e'.trace == e.trace + [Wait(since, e'.clock)]
  {
    var until := if e.clock >= since + gap then e.clock else since + gap;
    Env(e.device, until, e.trace + [Wait(since, until)])
  }

  datatype Option<T> = None | Some(value: T)
}
