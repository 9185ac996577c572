/**
  The driver: a reliability-checked read and an erase-guarded write over the
  device oracle of module `Hardware`.

  `Read` takes one read of the address, then `HARDWARE_ACCESS_TRY - 1`
  confirmation reads, each after a busy wait of at least
  `MIN_READ_INTERVAL` ms measured from the last checkpoint; the first
  confirmation that disagrees with the first answer ends the call with
  `Unstable`. `Write` reads the address once and writes only when that read
  shows the erased value. Faults raised by the device propagate unchanged.
 */
module DeviceDriver {
  import opened Hardware

  const HARDWARE_ACCESS_TRY: nat := 5
  const BYTE_ERASED: Byte := ERASED
  /** Minimum spacing, in ms, between a checkpoint and the next confirmation read. */
  const MIN_READ_INTERVAL: nat := 200

  /** `ReadFailException` is `Unstable`, `WriteFailException` is `NotErased`;
      a fault raised by the device is carried through as `Hardware`. */
  datatype Failure = Unstable | NotErased | Hardware(fault: Fault)

  datatype Result<T> = Ok(value: T) | Err(failure: Failure)

  /** `checkReliability`'s loop from iteration `i` on, with `previous` the
      last checkpoint. Each iteration waits, reads once, and stops at the
      first answer that is not `ret`. */
  function Confirm(e: Env, a: Address, ret: Byte, i: nat, previous: nat): (r: Step<Result<()>>)
    requires i >= 1
    ensures r.env.device.contents == e.device.contents
    ensures r.env.device.writeFaults == e.device.writeFaults
    ensures r.env.device.latency == e.device.latency
    ensures r.env.clock >= e.clock
    ensures i >= HARDWARE_ACCESS_TRY ==> r == Step(Ok(()), e)
    decreases HARDWARE_ACCESS_TRY - i
  {
    if i >= HARDWARE_ACCESS_TRY then
      Step(Ok(()), e)
    else
      var waited := WaitSince(e, previous, MIN_READ_INTERVAL);
      var answer := DeviceRead(waited, a);
      if answer.out != Value(ret) then
        var failure := if answer.out.Raise? then Hardware(answer.out.fault) else Unstable;
        Step(Err(failure), answer.env)
      else
        Confirm(answer.env, a, ret, i + 1, Now(answer.env))
  }

  /** `checkReliability(address, ret)`: take the checkpoint, then confirm.
      It only reads: no cell, write fault or latency changes, and time moves
      forward. */
  function CheckReliability(e: Env, a: Address, ret: Byte): (r: Step<Result<()>>)
    ensures r.env.device.contents == e.device.contents
    ensures r.env.device.writeFaults == e.device.writeFaults
    ensures r.env.device.latency == e.device.latency
    ensures r.env.clock >= e.clock
  {
    Confirm(e, a, ret, 1, Now(e))
  }

  /** `read(address)`: one read, then the reliability check; the first answer
      is the result when every confirmation agrees with it. */
  function Read(e: Env, a: Address): (r: Step<Result<Byte>>)
    ensures r.env.device.contents == e.device.contents
    ensures r.env.device.writeFaults == e.device.writeFaults
    ensures r.out.Ok? ==> Upcoming(e.device, a, 1)[0] == Value(r.out.value)
  {
    var first := DeviceRead(e, a);
    match first.out
    case Raise(f) =>
      Step(Err(Hardware(f)), first.env)
    case Value(ret) =>
      var checked := CheckReliability(first.env, a, ret);
      Step(if checked.out.Ok? then Ok(ret) else Err(checked.out.failure), checked.env)
  }

  /** `write(address, data)`: one read; write only if it shows the erased value. */
  function Write(e: Env, a: Address, data: Byte): (r: Step<Result<()>>)
    ensures var first := Upcoming(e.device, a, 1)[0];
      && (first.Raise? ==> r.out == Err(Hardware(first.fault)))
      && (first.Value? && first.b != BYTE_ERASED ==> r.out == Err(NotErased))
      && (first.Value? && first.b == BYTE_ERASED ==>
            r.out == (if a in e.device.writeFaults then Err(Hardware(e.device.writeFaults[a].fault)) else Ok(())))
    ensures var first := Upcoming(e.device, a, 1)[0];
      r.env.trace == e.trace + [ReadCall(a, e.clock)]
        + (if first == Value(BYTE_ERASED) then [WriteCall(a, data, e.clock + e.device.latency)] else [])
    ensures r.out.Ok? ==> Cell(r.env.device, a) == data
    ensures Upcoming(e.device, a, 1)[0] != Value(BYTE_ERASED) ==> r.env.device == Consume(e.device, a, 1)
    ensures Upcoming(e.device, a, 1)[0] == Value(BYTE_ERASED) && a in e.device.writeFaults ==>
      Cell(r.env.device, a) == e.device.writeFaults[a].leaves
    ensures forall b :: b != a ==> Cell(r.env.device, b) == Cell(e.device, b)
    ensures forall b :: Script(r.env.device, b) == Script(Consume(e.device, a, 1), b)
    ensures r.env.device.writeFaults == e.device.writeFaults && r.env.device.latency == e.device.latency
  {
    var first := DeviceRead(e, a);
    match first.out
    case Raise(f) => Step(Err(Hardware(f)), first.env)
    case Value(v) =>
      if v != BYTE_ERASED then
        Step(Err(NotErased), first.env)
      else
        var written := DeviceWrite(first.env, a, data);
        Step(if written.out.Some? then Err(Hardware(written.out.value)) else Ok(()), written.env)
  }
}
