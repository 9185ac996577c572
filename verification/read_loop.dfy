/**
  `read` written the way the Java `read` runs it: one read, then a counted
  loop of confirmation reads with a checkpoint refreshed after each one.
 */
module ReadLoop {
  import opened Hardware
  import opened DeviceDriver

  /** The loop-based `read` produces the same result, device and trace as
      the functional model `DeviceDriver.Read`. */
  method ReadWithLoop(e: Env, a: Address) returns (r: Step<Result<Byte>>)
    ensures r == Read(e, a)
  {
    var first := DeviceRead(e, a);
    if first.out.Raise? {
      return Step(Err(Hardware(first.out.fault)), first.env);
    }
    var ret := first.out.b;
    var env := first.env;
    var previous := Now(env);
    var i := 1;
    while i < HARDWARE_ACCESS_TRY
      invariant 1 <= i <= HARDWARE_ACCESS_TRY
      invariant Confirm(env, a, ret, i, previous) == CheckReliability(first.env, a, ret)
      decreases HARDWARE_ACCESS_TRY - i
    {
      env := WaitSince(env, previous, MIN_READ_INTERVAL);
      var answer := DeviceRead(env, a);
      env := answer.env;
      if answer.out != Value(ret) {
        var failure := if answer.out.Raise? then Hardware(answer.out.fault) else Unstable;
        return Step(Err(failure), env);
      }
      previous := Now(env);
      i := i + 1;
    }
    return Step(Ok(ret), env);
  }
}
