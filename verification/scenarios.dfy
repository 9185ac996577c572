/**
  The concrete situations the JUnit tests of `DeviceDriver` set up, as
  facts about the model.
 */
module Scenarios {
  import opened Hardware
  import opened DeviceDriver
  import opened ReadProperties

  const ADDRESS_FF: Address := 0xFF
  const ADDRESS_F3: Address := 0xF3

  /** A quiet device whose cell `a` answers `answers` to its next reads. */
  function Answering(a: Address, answers: seq<Byte>): Env
  {
    var script := seq(|answers|, j requires 0 <= j < |answers| => Value(answers[j]));
    Env(Device(map[a := script], map[], map[], 0), 0, [])
  }

  /** Five equal answers: `read` returns the byte after five reads, all of
      the same address. */
  lemma ReadOfSteadyCell(data: Byte)
    ensures var r := Read(Answering(ADDRESS_FF, [data, data, data, data, data]), ADDRESS_FF);
      r.out == Ok(data) && ReadCount(r.env.trace) == 5 && OnlyReadsOf(r.env.trace, ADDRESS_FF)
  {
    var e := Answering(ADDRESS_FF, [data, data, data, data, data]);
    ReadStable(e, ADDRESS_FF, data);
    assert Read(e, ADDRESS_FF).env.trace[|e.trace|..] == Read(e, ADDRESS_FF).env.trace;
  }

  /** Answers 1, 1, 2, 1, 1: `read` fails with `Unstable` after three reads. */
  lemma ReadOfFlakyCell()
    ensures var r := Read(Answering(ADDRESS_FF, [1, 1, 2, 1, 1]), ADDRESS_FF);
      r.out == Err(Unstable) && ReadCount(r.env.trace) == 3
  {
    var e := Answering(ADDRESS_FF, [1, 1, 2, 1, 1]);
    ReadUnstableAt(e, ADDRESS_FF, 1, 2, 2);
    assert Read(e, ADDRESS_FF).env.trace[|e.trace|..] == Read(e, ADDRESS_FF).env.trace;
  }

  /** Writing `data` to a cell that reads 0xFF: exactly one read, then one
      write call carrying `data`; the tests use `(0xFF, 1)` and `(0xF3, 2)`. */
  lemma WriteToErasedCell(a: Address, data: Byte)
    ensures var r := Write(Answering(a, [0xFF]), a, data);
      r.out == Ok(()) && r.env.trace == [ReadCall(a, 0), WriteCall(a, data, 0)]
  {
  }

  /** Writing to a cell that reads 0x00: `NotErased` and no write call. */
  lemma WriteToWrittenCell()
    ensures var r := Write(Answering(ADDRESS_FF, [0x00]), ADDRESS_FF, 1);
      r.out == Err(NotErased) && r.env.trace == [ReadCall(ADDRESS_FF, 0)]
  {
  }
}
