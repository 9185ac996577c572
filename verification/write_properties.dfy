/**
  What `DeviceDriver.Write` does to the device, and how it composes with
  `DeviceDriver.Read`.
 */
module WriteProperties {
  import opened Hardware
  import opened DeviceDriver
  import opened ReadProperties

  /** A cell that does not read as erased is refused: `NotErased`, one read
      and no write, contents untouched. */
  lemma WriteNotErased(e: Env, a: Address, data: Byte, v: Byte)
    requires Upcoming(e.device, a, 1)[0] == Value(v) && v != BYTE_ERASED
    ensures var r := Write(e, a, data);
      && r.out == Err(NotErased)
      && r.env.trace == e.trace + [ReadCall(a, e.clock)]
      && r.env.device.contents == e.device.contents
  {
  }

  /** An erased cell is written: exactly one read then exactly one write of
      `data` to `a`; `a` now holds `data`, and the device is otherwise only
      one answer of `a` further on. */
  lemma WriteErased(e: Env, a: Address, data: Byte)
    requires Upcoming(e.device, a, 1)[0] == Value(BYTE_ERASED) && a !in e.device.writeFaults
    ensures var r := Write(e, a, data);
      && r.out == Ok(())
      && r.env.trace == e.trace + [ReadCall(a, e.clock), WriteCall(a, data, e.clock + e.device.latency)]
      && r.env.device.contents == e.device.contents[a := data]
      && r.env.device == Consume(e.device, a, 1).(contents := e.device.contents[a := data])
  {
    var r := Write(e, a, data);
    var m := e.device.contents[a := data];
    assert r.env.device.contents.Keys == m.Keys;
  }

  /** A successful write followed by a read of the same cell gives back the
      byte written, once the cell has no flaky answers queued beyond the one
      the write's own read consumes. */
  lemma WriteThenRead(e: Env, a: Address, data: Byte)
    requires Write(e, a, data).out.Ok?
    requires |Script(e.device, a)| <= 1
    ensures Read(Write(e, a, data).env, a).out == Ok(data)
  {
    var w := Write(e, a, data).env;
    var first := DeviceRead(e, a);
    assert Script(first.env.device, a) == [];
    assert Script(w.device, a) == [];
    assert Cell(w.device, a) == data;
    ReadStable(w, a, data);
  }
}
