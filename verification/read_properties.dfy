/**
  What `DeviceDriver.Read` does, stated against two independent reference
  descriptions: `Hardware.Upcoming` (the answers the device will give) and
  `ReadSchedule` (the exact trace of hardware calls a read of `n` hardware
  reads produces).
 */
module ReadProperties {
  import opened Hardware
  import opened DeviceDriver

  /** The hardware events in `s` that are reads. */
  function ReadCount(s: seq<Event>): (n: nat)
    ensures n <= |s|
  {
    if s == [] then 0 else (if s[0].ReadCall? then 1 else 0) + ReadCount(s[1..])
  }

  /** Every hardware event in `s` is a read of `a` or a wait. */
  predicate OnlyReadsOf(s: seq<Event>, a: Address)
  {
    forall j :: 0 <= j < |s| ==> s[j].Wait? || s[j] == ReadCall(a, s[j].at)
  }

  lemma {:induction false} ReadCountSplit(s: seq<Event>, t: seq<Event>)
    ensures ReadCount(s + t) == ReadCount(s) + ReadCount(t)
  {
    if s == [] {
      assert s + t == t;
    } else {
      assert (s + t)[1..] == s[1..] + t;
      ReadCountSplit(s[1..], t);
    }
  }

  /** The trace of `n` iterations of the confirmation loop, the first
      checkpoint taken at time `c`: each a busy wait of `MIN_READ_INTERVAL`
      from the checkpoint, then a read of `a`; the next checkpoint is taken
      when that read returns. */
  function Confirmations(a: Address, c: nat, lat: nat, n: nat): seq<Event>
    decreases n
  {
    if n == 0 then
      []
    else
      [Wait(c, c + MIN_READ_INTERVAL), ReadCall(a, c + MIN_READ_INTERVAL)]
      + Confirmations(a, c + MIN_READ_INTERVAL + lat, lat, n - 1)
  }

  /** The trace of a logical read that issues `n` hardware reads of `a`, the
      first at time `t`. */
  function ReadSchedule(a: Address, t: nat, lat: nat, n: nat): seq<Event>
    requires n >= 1
  {
    [ReadCall(a, t)] + Confirmations(a, t + lat, lat, n - 1)
  }

  lemma ScheduleUnfold(a: Address, t: nat, lat: nat, n: nat)
    requires n >= 2
    ensures ReadSchedule(a, t, lat, n)
      == [ReadCall(a, t), Wait(t + lat, t + lat + MIN_READ_INTERVAL)]
         + ReadSchedule(a, t + lat + MIN_READ_INTERVAL, lat, n - 1)
  {
    var t' := t + lat + MIN_READ_INTERVAL;
    ConcatAssoc([ReadCall(a, t)], [Wait(t + lat, t'), ReadCall(a, t')], Confirmations(a, t' + lat, lat, n - 2));
  }

  /** The pacing promise of the confirmation loop: reads and waits
      alternate, starting and ending with a read of `a`; each wait lasts at
      least `MIN_READ_INTERVAL` from its checkpoint, the checkpoint being
      taken when the read before it returned; the next read is issued when
      the wait ends, so successive reads are at least `MIN_READ_INTERVAL`
      apart. */
  ghost predicate Paced(s: seq<Event>, a: Address, lat: nat)
  {
    Alternates(s, a) && Timed(s, lat)
  }

  /** Reads of `a` and waits alternate, starting and ending with a read. */
  ghost predicate Alternates(s: seq<Event>, a: Address)
  {
    && |s| % 2 == 1
    && (forall i :: 0 <= i < |s| ==> (s[i].Wait? <==> i % 2 == 1))
    && (forall i :: 0 <= i < |s| && s[i].ReadCall? ==> s[i].addr == a)
  }

  /** The timing half of `Paced`. */
  ghost predicate Timed(s: seq<Event>, lat: nat)
  {
    WaitsLongEnough(s) && CheckpointsAfterReads(s, lat) && ReadsWhenWaitsEnd(s) && ReadsSpaced(s)
  }

  ghost predicate WaitsLongEnough(s: seq<Event>)
  {
    forall i :: 0 <= i < |s| && s[i].Wait? ==> s[i].until >= s[i].since + MIN_READ_INTERVAL
  }

  ghost predicate CheckpointsAfterReads(s: seq<Event>, lat: nat)
  {
    forall i, j :: 0 <= i && j == i + 1 && j < |s| && s[i].ReadCall? && s[j].Wait? ==>
      s[j].since == s[i].at + lat
  }

  ghost predicate ReadsWhenWaitsEnd(s: seq<Event>)
  {
    forall i, j :: 0 <= i && j == i + 1 && j < |s| && s[i].Wait? && s[j].ReadCall? ==>
      s[j].at == s[i].until
  }

  ghost predicate ReadsSpaced(s: seq<Event>)
  {
    forall i, j :: 0 <= i && j == i + 2 && j < |s| && s[i].ReadCall? && s[j].ReadCall? ==>
      s[j].at >= s[i].at + MIN_READ_INTERVAL
  }


  lemma ScheduleFacts(a: Address, t: nat, lat: nat, n: nat)
    requires n >= 1
    ensures var s := ReadSchedule(a, t, lat, n);
      && |s| == 2 * n - 1
      && s[0] == ReadCall(a, t)
      && ReadCount(s) == n
      && OnlyReadsOf(s, a)
      && Paced(s, a, lat)
  {
    ScheduleShape(a, t, lat, n);
    SchedulePaced(a, t, lat, n);
  }

  lemma {:induction false} ScheduleShape(a: Address, t: nat, lat: nat, n: nat)
    requires n >= 1
    ensures var s := ReadSchedule(a, t, lat, n);
      && |s| == 2 * n - 1
      && s[0] == ReadCall(a, t)
      && ReadCount(s) == n
      && OnlyReadsOf(s, a)
      && Alternates(s, a)
    decreases n
  {
    var s := ReadSchedule(a, t, lat, n);
    if n == 1 {
      assert ReadCount(s) == 1 + ReadCount(s[1..]);
    } else {
      var t' := t + lat + MIN_READ_INTERVAL;
      var rest := ReadSchedule(a, t', lat, n - 1);
      var head := [ReadCall(a, t), Wait(t + lat, t')];
      ScheduleShape(a, t', lat, n - 1);
      ScheduleUnfold(a, t, lat, n);
      ReadCountSplit(head, rest);
      assert ReadCount(head) == 1 by {
        assert ReadCount(head) == 1 + ReadCount(head[1..]);
        assert ReadCount(head[1..]) == 0 + ReadCount(head[2..]);
      }
      forall j | 2 <= j < |s|
        ensures s[j] == rest[j - 2]
      {
      }
    }
  }

  lemma {:induction false} SchedulePaced(a: Address, t: nat, lat: nat, n: nat)
    requires n >= 1
    ensures Timed(ReadSchedule(a, t, lat, n), lat)
    decreases n
  {
    if n >= 2 {
      var t' := t + lat + MIN_READ_INTERVAL;
      var rest := ReadSchedule(a, t', lat, n - 1);
      SchedulePaced(a, t', lat, n - 1);
      ScheduleUnfold(a, t, lat, n);
      assert rest[0] == ReadCall(a, t');
      var head := [ReadCall(a, t), Wait(t + lat, t')];
      ConsWaits(head, rest);
      ConsCheckpoints(head, rest, lat);
      ConsReadsWhenWaitsEnd(head, rest);
      ConsReadsSpaced(head, rest);
    }
  }

  lemma ConsWaits(head: seq<Event>, rest: seq<Event>)
    requires |head| == 2 && head[0].ReadCall? && head[1].Wait?
    requires head[1].until >= head[1].since + MIN_READ_INTERVAL
    requires WaitsLongEnough(rest)
    ensures WaitsLongEnough(head + rest)
  {
    var s := head + rest;
    forall i | 0 <= i < |s| && s[i].Wait?
      ensures s[i].until >= s[i].since + MIN_READ_INTERVAL
    {
      if i >= 2 {
        assert s[i] == rest[i - 2];
      }
    }
  }

  lemma ConsCheckpoints(head: seq<Event>, rest: seq<Event>, lat: nat)
    requires |head| == 2 && head[0].ReadCall? && head[1].Wait?
    requires head[1].since == head[0].at + lat
    requires CheckpointsAfterReads(rest, lat)
    ensures CheckpointsAfterReads(head + rest, lat)
  {
    var s := head + rest;
    forall i, j | 0 <= i && j == i + 1 && j < |s| && s[i].ReadCall? && s[j].Wait?
      ensures s[j].since == s[i].at + lat
    {
      if i >= 2 {
        assert s[i] == rest[i - 2] && s[j] == rest[j - 2];
      }
    }
  }

  lemma ConsReadsWhenWaitsEnd(head: seq<Event>, rest: seq<Event>)
    requires |head| == 2 && |rest| >= 1 && head[0].ReadCall? && head[1].Wait? && rest[0].ReadCall?
    requires rest[0].at == head[1].until
    requires ReadsWhenWaitsEnd(rest)
    ensures ReadsWhenWaitsEnd(head + rest)
  {
    var s := head + rest;
    forall i, j | 0 <= i && j == i + 1 && j < |s| && s[i].Wait? && s[j].ReadCall?
      ensures s[j].at == s[i].until
    {
      if i >= 2 {
        assert s[i] == rest[i - 2] && s[j] == rest[j - 2];
      }
    }
  }

  lemma ConsReadsSpaced(head: seq<Event>, rest: seq<Event>)
    requires |head| == 2 && |rest| >= 1 && head[0].ReadCall? && head[1].Wait? && rest[0].ReadCall?
    requires rest[0].at >= head[0].at + MIN_READ_INTERVAL
    requires ReadsSpaced(rest)
    ensures ReadsSpaced(head + rest)
  {
    var s := head + rest;
    forall i, j | 0 <= i && j == i + 2 && j < |s| && s[i].ReadCall? && s[j].ReadCall?
      ensures s[j].at >= s[i].at + MIN_READ_INTERVAL
    {
      if i >= 2 {
        assert s[i] == rest[i - 2] && s[j] == rest[j - 2];
      }
    }
  }

  lemma UpcomingFirst(d: Device, a: Address, m: nat)
    requires m >= 1
    ensures Upcoming(d, a, m)[0] == Upcoming(d, a, 1)[0]
  {
  }

  /** After `p` reads of `a`, the upcoming answers are the rest of what they
      were before. */
  lemma UpcomingAfterConsume(d: Device, a: Address, p: nat, q: nat)
    ensures Upcoming(Consume(d, a, p), a, q) == Upcoming(d, a, p + q)[p..]
  {
    var lhs := Upcoming(Consume(d, a, p), a, q);
    var rhs := Upcoming(d, a, p + q)[p..];
    assert |lhs| == |rhs|;
    forall j | 0 <= j < q
      ensures lhs[j] == rhs[j]
    {
    }
  }

  lemma ConsumeTwice(d: Device, a: Address, p: nat, q: nat)
    ensures Consume(Consume(d, a, p), a, q) == Consume(d, a, p + q)
  {
    if a in d.script {
      var s := d.script[a];
      assert Drop(Drop(s, p), q) == Drop(s, p + q);
      assert d.script[a := Drop(s, p)][a := Drop(Drop(s, p), q)] == d.script[a := Drop(s, p + q)];
    }
  }

  /** What the confirmation loop from iteration `i`, with the checkpoint
      taken now, does when `k` is the position of the first upcoming answer
      other than `ret` (`k = m`, the number of confirmations left, when
      there is none): it succeeds exactly when `k = m`, otherwise fails with
      the fault raised or with `Unstable`; it issues `n` waits and reads,
      the exact trace `Confirmations`, and consumes `n` answers. */
  predicate ConfirmMeets(e: Env, a: Address, ret: Byte, i: nat, k: nat)
    requires 1 <= i <= HARDWARE_ACCESS_TRY && k <= HARDWARE_ACCESS_TRY - i
  {
    var m := HARDWARE_ACCESS_TRY - i;
    var rs := Upcoming(e.device, a, m);
    var n := if k == m then m else k + 1;
    var r := Confirm(e, a, ret, i, e.clock);
    && r.out == (if k == m then Ok(()) else Err(if rs[k].Raise? then Hardware(rs[k].fault) else Unstable))
    && r.env.trace == e.trace + Confirmations(a, e.clock, e.device.latency, n)
    && r.env.device == Consume(e.device, a, n)
  }

  /** `k` is the position of the first of the `m` upcoming answers for `a`
      that is not `ret`, or `m` when all are. */
  predicate FirstOther(d: Device, a: Address, ret: Byte, m: nat, k: nat)
  {
    k == FirstOtherThan(Upcoming(d, a, m), Value(ret), 0)
  }

  lemma {:induction false} ConfirmOutcome(e: Env, a: Address, ret: Byte, i: nat, k: nat)
    requires 1 <= i <= HARDWARE_ACCESS_TRY
    requires FirstOther(e.device, a, ret, HARDWARE_ACCESS_TRY - i, k)
    ensures ConfirmMeets(e, a, ret, i, k)
    decreases HARDWARE_ACCESS_TRY - i
  {
    if i == HARDWARE_ACCESS_TRY {
      ConfirmDone(e, a, ret);
    } else if k == 0 {
      ConfirmStops(e, a, ret, i);
    } else {
      FirstOtherAfterIteration(e, a, ret, i, k);
      ConfirmOutcome(AfterIteration(e, a), a, ret, i + 1, k - 1);
      ConfirmContinues(e, a, ret, i, k);
    }
  }

  /** An iteration that reads the expected byte leaves the remaining answers
      with their first other one a position earlier. */
  lemma FirstOtherAfterIteration(e: Env, a: Address, ret: Byte, i: nat, k: nat)
    requires 1 <= i < HARDWARE_ACCESS_TRY && 1 <= k
    requires FirstOther(e.device, a, ret, HARDWARE_ACCESS_TRY - i, k)
    ensures Upcoming(AfterIteration(e, a).device, a, HARDWARE_ACCESS_TRY - i - 1)
      == Upcoming(e.device, a, HARDWARE_ACCESS_TRY - i)[1..]
    ensures FirstOther(AfterIteration(e, a).device, a, ret, HARDWARE_ACCESS_TRY - i - 1, k - 1)
  {
    var m := HARDWARE_ACCESS_TRY - i;
    UpcomingAfterConsume(e.device, a, 1, m - 1);
    var rs := Upcoming(e.device, a, m);
    var rs' := Upcoming(AfterIteration(e, a).device, a, m - 1);
    assert rs' == rs[1..];
    forall j | 0 <= j < k - 1
      ensures rs'[j] == Value(ret)
    {
      assert rs'[j] == rs[j + 1];
    }
    if k < m {
      assert rs'[k - 1] == rs[k];
    }
  }

  lemma ConfirmDone(e: Env, a: Address, ret: Byte)
    ensures ConfirmMeets(e, a, ret, HARDWARE_ACCESS_TRY, 0)
  {
    ConsumeNone(e.device, a);
    assert e.trace + Confirmations(a, e.clock, e.device.latency, 0) == e.trace;
  }

  lemma ConfirmStops(e: Env, a: Address, ret: Byte, i: nat)
    requires 1 <= i < HARDWARE_ACCESS_TRY
    requires FirstOther(e.device, a, ret, HARDWARE_ACCESS_TRY - i, 0)
    ensures ConfirmMeets(e, a, ret, i, 0)
  {
    var c' := e.clock + MIN_READ_INTERVAL;
    var step := [Wait(e.clock, c'), ReadCall(a, c')];
    assert AfterIteration(e, a).trace == e.trace + step;
    ConfirmStep(e, a, ret, i);
    UpcomingFirst(e.device, a, HARDWARE_ACCESS_TRY - i);
    assert Confirmations(a, e.clock, e.device.latency, 1) == step + [];
  }

  lemma ConfirmContinues(e: Env, a: Address, ret: Byte, i: nat, k: nat)
    requires 1 <= i < HARDWARE_ACCESS_TRY && 1 <= k <= HARDWARE_ACCESS_TRY - i
    requires FirstOther(e.device, a, ret, HARDWARE_ACCESS_TRY - i, k)
    requires Upcoming(AfterIteration(e, a).device, a, HARDWARE_ACCESS_TRY - i - 1)
      == Upcoming(e.device, a, HARDWARE_ACCESS_TRY - i)[1..]
    requires ConfirmMeets(AfterIteration(e, a), a, ret, i + 1, k - 1)
    ensures ConfirmMeets(e, a, ret, i, k)
  {
    var m := HARDWARE_ACCESS_TRY - i;
    var rs := Upcoming(e.device, a, m);
    var e2 := AfterIteration(e, a);
    var rs' := Upcoming(e2.device, a, m - 1);
    ConfirmStep(e, a, ret, i);
    UpcomingFirst(e.device, a, m);
    assert rs[0] == Value(ret);
    var n' := if k == m then m - 1 else k;
    if k < m {
      assert rs'[k - 1] == rs[k];
    }
    ConsumeTwice(e.device, a, 1, n');
    IterationTrace(e, a, n');
  }

  /** The trace of one more loop iteration in front of `n` more. */
  lemma IterationTrace(e: Env, a: Address, n: nat)
    ensures AfterIteration(e, a).trace + Confirmations(a, AfterIteration(e, a).clock, e.device.latency, n)
      == e.trace + Confirmations(a, e.clock, e.device.latency, n + 1)
  {
    var c' := e.clock + MIN_READ_INTERVAL;
    var step := [Wait(e.clock, c'), ReadCall(a, c')];
    ConcatAssoc(e.trace, step, Confirmations(a, c' + e.device.latency, e.device.latency, n));
  }

  lemma ConsumeNone(d: Device, a: Address)
    ensures Consume(d, a, 0) == d
  {
    if a in d.script {
      assert d.script[a := d.script[a]] == d.script;
    }
  }

  lemma ConcatAssoc(p: seq<Event>, q: seq<Event>, s: seq<Event>)
    ensures (p + q) + s == p + (q + s)
  {
  }

  /** The environment after one iteration of the confirmation loop whose
      checkpoint is now: a wait of `MIN_READ_INTERVAL`, then one read. */
  function AfterIteration(e: Env, a: Address): Env
  {
    var t' := e.clock + MIN_READ_INTERVAL;
    Env(Consume(e.device, a, 1), t' + e.device.latency, e.trace + [Wait(e.clock, t'), ReadCall(a, t')])
  }

  /** One iteration of the confirmation loop, measured from a checkpoint
      taken now: stop on an answer other than `ret`, go on otherwise. */
  lemma ConfirmStep(e: Env, a: Address, ret: Byte, i: nat)
    requires 1 <= i < HARDWARE_ACCESS_TRY
    ensures var x := Upcoming(e.device, a, 1)[0];
      x != Value(ret) ==>
        Confirm(e, a, ret, i, e.clock) == Step(Err(if x.Raise? then Hardware(x.fault) else Unstable), AfterIteration(e, a))
    ensures Upcoming(e.device, a, 1)[0] == Value(ret) ==>
      Confirm(e, a, ret, i, e.clock) == Confirm(AfterIteration(e, a), a, ret, i + 1, AfterIteration(e, a).clock)
  {
    var waited := WaitSince(e, e.clock, MIN_READ_INTERVAL);
    assert waited.clock == e.clock + MIN_READ_INTERVAL;
    assert waited.trace + [ReadCall(a, waited.clock)] == e.trace + [Wait(e.clock, waited.clock), ReadCall(a, waited.clock)];
    var answer := DeviceRead(waited, a);
    assert answer.env == AfterIteration(e, a);
    assert answer.out == Upcoming(e.device, a, 1)[0];
  }

  /** The first answer for `a` is a value, and `k` is the first confirmation
      that differs from it (`k = 5` when none does). */
  predicate FirstChangeAt(d: Device, a: Address, k: nat)
  {
    var rs := Upcoming(d, a, HARDWARE_ACCESS_TRY);
    rs[0].Value? && k == FirstOtherThan(rs, rs[0], 1)
  }

  /** `read` when the first answer is a value `v = rs[0]` and `k` is the
      first confirmation that differs from it (`k = 5` when none does): the
      result, the exact trace, and what is left of the answer queue. */
  lemma ReadOutcome(e: Env, a: Address, k: nat)
    requires FirstChangeAt(e.device, a, k)
    ensures var rs := Upcoming(e.device, a, HARDWARE_ACCESS_TRY);
      var n := if k == HARDWARE_ACCESS_TRY then HARDWARE_ACCESS_TRY else k + 1;
      var r := Read(e, a);
      && r.out == (if k == HARDWARE_ACCESS_TRY then Ok(rs[0].b)
                   else Err(if rs[k].Raise? then Hardware(rs[k].fault) else Unstable))
      && r.env.trace == e.trace + ReadSchedule(a, e.clock, e.device.latency, n)
      && r.env.device == Consume(e.device, a, n)
  {
    var rs := Upcoming(e.device, a, HARDWARE_ACCESS_TRY);
    var first := DeviceRead(e, a);
    var ret := rs[0].b;
    AfterFirstRead(e, a, k);
    ConfirmOutcome(first.env, a, ret, 1, k - 1);
    ReadThroughConfirm(e, a);
    var n' := if k == HARDWARE_ACCESS_TRY then HARDWARE_ACCESS_TRY - 1 else k;
    ConsumeTwice(e.device, a, 1, n');
    ReadTrace(e, a, n');
  }

  /** After the first read of `read`, the confirmations face the remaining
      answers, whose first one other than the value read is at `k - 1`. */
  lemma AfterFirstRead(e: Env, a: Address, k: nat)
    requires FirstChangeAt(e.device, a, k)
    ensures var rs := Upcoming(e.device, a, HARDWARE_ACCESS_TRY);
      var first := DeviceRead(e, a);
      && first.out == Value(rs[0].b)
      && FirstOther(first.env.device, a, rs[0].b, HARDWARE_ACCESS_TRY - 1, k - 1)
      && (k < HARDWARE_ACCESS_TRY ==> Upcoming(first.env.device, a, HARDWARE_ACCESS_TRY - 1)[k - 1] == rs[k])
  {
    var d := e.device;
    var rs := Upcoming(d, a, HARDWARE_ACCESS_TRY);
    var first := DeviceRead(e, a);
    UpcomingFirst(d, a, HARDWARE_ACCESS_TRY);
    UpcomingAfterConsume(d, a, 1, HARDWARE_ACCESS_TRY - 1);
    var rs' := Upcoming(first.env.device, a, HARDWARE_ACCESS_TRY - 1);
    assert rs' == rs[1..];
    forall j | 0 <= j < k - 1
      ensures rs'[j] == rs[0]
    {
      assert rs'[j] == rs[j + 1];
    }
    if k < HARDWARE_ACCESS_TRY {
      assert rs'[k - 1] == rs[k];
    }
  }

  /** `read` on a first answer that is a value is that value, passed
      through the confirmation loop. */
  lemma ReadThroughConfirm(e: Env, a: Address)
    requires Upcoming(e.device, a, 1)[0].Value?
    ensures var first := DeviceRead(e, a);
      var checked := Confirm(first.env, a, first.out.b, 1, first.env.clock);
      Read(e, a) == Step(if checked.out.Ok? then Ok(first.out.b) else Err(checked.out.failure), checked.env)
  {
  }

  /** The first read followed by `n` confirmation iterations is the
      reference schedule of `n + 1` reads. */
  lemma ReadTrace(e: Env, a: Address, n: nat)
    ensures var first := DeviceRead(e, a);
      first.env.trace + Confirmations(a, first.env.clock, first.env.device.latency, n)
      == e.trace + ReadSchedule(a, e.clock, e.device.latency, n + 1)
  {
    var lat := e.device.latency;
    ConcatAssoc(e.trace, [ReadCall(a, e.clock)], Confirmations(a, e.clock + lat, lat, n));
  }

  /** `read` when the very first hardware read raises a fault: the fault
      propagates and nothing else is issued. */
  lemma ReadFirstFault(e: Env, a: Address)
    requires Upcoming(e.device, a, 1)[0].Raise?
    ensures var r := Read(e, a);
      && r.out == Err(Hardware(Upcoming(e.device, a, 1)[0].fault))
      && r.env.trace == e.trace + ReadSchedule(a, e.clock, e.device.latency, 1)
      && r.env.device == Consume(e.device, a, 1)
  {
  }

  /** Five identical answers `v`: `read` returns `v` after exactly five reads
      of `a`, four paced waits, and no write. */
  lemma ReadStable(e: Env, a: Address, v: Byte)
    requires forall j :: 0 <= j < HARDWARE_ACCESS_TRY ==> Upcoming(e.device, a, HARDWARE_ACCESS_TRY)[j] == Value(v)
    ensures var r := Read(e, a);
      var s := r.env.trace[|e.trace|..];
      && r.out == Ok(v)
      && ReadCount(s) == HARDWARE_ACCESS_TRY
      && |s| == 2 * HARDWARE_ACCESS_TRY - 1
      && OnlyReadsOf(s, a)
      && Paced(s, a, e.device.latency)
  {
    ReadOutcome(e, a, HARDWARE_ACCESS_TRY);
    ScheduleFacts(a, e.clock, e.device.latency, HARDWARE_ACCESS_TRY);
  }

  /** Confirmation `k` is the first answer that differs from the initial
      value `v`, with a different value `w`: `read` fails with `Unstable`
      after exactly `k + 1` hardware reads. */
  lemma ReadUnstableAt(e: Env, a: Address, v: Byte, w: Byte, k: nat)
    requires 1 <= k < HARDWARE_ACCESS_TRY && w != v
    requires var rs := Upcoming(e.device, a, HARDWARE_ACCESS_TRY);
      (forall j :: 0 <= j < k ==> rs[j] == Value(v)) && rs[k] == Value(w)
    ensures var r := Read(e, a);
      var s := r.env.trace[|e.trace|..];
      && r.out == Err(Unstable)
      && ReadCount(s) == k + 1
      && |s| == 2 * k + 1
      && OnlyReadsOf(s, a)
      && Paced(s, a, e.device.latency)
      && r.env.device == Consume(e.device, a, k + 1)
  {
    ReadOutcome(e, a, k);
    ScheduleFacts(a, e.clock, e.device.latency, k + 1);
  }

  /** Position of the first answer at or after `from` that is not `x`, or
      `|rs|` when there is none. */
  function FirstOtherThan(rs: seq<Response>, x: Response, from: nat): (k: nat)
    requires from <= |rs|
    ensures from <= k <= |rs|
    ensures forall j :: from <= j < k ==> rs[j] == x
    ensures k < |rs| ==> rs[k] != x
    decreases |rs| - from
  {
    if from == |rs| || rs[from] != x then from else FirstOtherThan(rs, x, from + 1)
  }

  /** The first other position is the only one with its two properties. */
  lemma {:induction false} FirstOtherThanIs(rs: seq<Response>, x: Response, from: nat, k: nat)
    requires from <= k <= |rs|
    requires forall j :: from <= j < k ==> rs[j] == x
    requires k < |rs| ==> rs[k] != x
    ensures FirstOtherThan(rs, x, from) == k
    decreases k - from
  {
    if from < k {
      FirstOtherThanIs(rs, x, from + 1, k);
    }
  }

  /** `checkReliability(address, ret)` from the checkpoint it takes on entry:
      it succeeds exactly when the next four answers all are `ret`; otherwise
      the first other answer decides the failure. Its trace is exactly the
      reference `Confirmations` of the iterations run, and it consumes
      exactly those answers. */
  lemma CheckReliabilityOutcome(e: Env, a: Address, ret: Byte)
    ensures var m := HARDWARE_ACCESS_TRY - 1;
      var rs := Upcoming(e.device, a, m);
      var k := FirstOtherThan(rs, Value(ret), 0);
      var n := if k == m then m else k + 1;
      var r := CheckReliability(e, a, ret);
      && (r.out.Ok? <==> forall j :: 0 <= j < m ==> rs[j] == Value(ret))
      && (k < m ==> r.out == Err(if rs[k].Raise? then Hardware(rs[k].fault) else Unstable))
      && r.env.trace == e.trace + Confirmations(a, e.clock, e.device.latency, n)
      && r.env.device == Consume(e.device, a, n)
  {
    var m := HARDWARE_ACCESS_TRY - 1;
    var k := FirstOtherThan(Upcoming(e.device, a, m), Value(ret), 0);
    ConfirmOutcome(e, a, ret, 1, k);
  }

  /** `read` succeeds exactly when the first answer is a value and all four
      confirmations repeat it; it then returns that value. */
  lemma ReadSucceedsIff(e: Env, a: Address)
    ensures var rs := Upcoming(e.device, a, HARDWARE_ACCESS_TRY);
      Read(e, a).out.Ok? <==> rs[0].Value? && forall j :: 0 <= j < HARDWARE_ACCESS_TRY ==> rs[j] == rs[0]
    ensures Read(e, a).out.Ok? ==> Read(e, a).out.value == Upcoming(e.device, a, HARDWARE_ACCESS_TRY)[0].b
  {
    var rs := Upcoming(e.device, a, HARDWARE_ACCESS_TRY);
    UpcomingFirst(e.device, a, HARDWARE_ACCESS_TRY);
    if rs[0].Value? {
      var k := FirstOtherThan(rs, rs[0], 1);
      ReadOutcome(e, a, k);
    } else {
      ReadFirstFault(e, a);
    }
  }

  /** Five equal answers `v`, except position `j` answers `w != v`: `read`
      fails with `Unstable`, whichever position was changed, the initial one
      included. */
  lemma SingleChangeFails(e: Env, a: Address, v: Byte, w: Byte, j: nat)
    requires j < HARDWARE_ACCESS_TRY && w != v
    requires forall i :: 0 <= i < HARDWARE_ACCESS_TRY ==>
      Upcoming(e.device, a, HARDWARE_ACCESS_TRY)[i] == (if i == j then Value(w) else Value(v))
    ensures Read(e, a).out == Err(Unstable)
  {
    var rs := Upcoming(e.device, a, HARDWARE_ACCESS_TRY);
    var k := if j == 0 then 1 else j;
    FirstOtherThanIs(rs, rs[0], 1, k);
    ReadOutcome(e, a, k);
  }

  /** Every logical read, whatever the device answers, issues between one and
      five reads of `a` only, paced as the loop promises, and no write; at
      least two unless the very first read raises a fault. */
  lemma ReadIsPaced(e: Env, a: Address)
    ensures var r := Read(e, a);
      var s := r.env.trace[|e.trace|..];
      && Paced(s, a, e.device.latency)
      && OnlyReadsOf(s, a)
      && 1 <= ReadCount(s) <= HARDWARE_ACCESS_TRY
      && (Upcoming(e.device, a, 1)[0].Value? ==> 2 <= ReadCount(s))
  {
    var rs := Upcoming(e.device, a, HARDWARE_ACCESS_TRY);
    UpcomingFirst(e.device, a, HARDWARE_ACCESS_TRY);
    var n: nat;
    if rs[0].Value? {
      var k := FirstOtherThan(rs, rs[0], 1);
      ReadOutcome(e, a, k);
      n := if k == HARDWARE_ACCESS_TRY then HARDWARE_ACCESS_TRY else k + 1;
    } else {
      ReadFirstFault(e, a);
      n := 1;
    }
    ScheduleFacts(a, e.clock, e.device.latency, n);
  }
}
