/** Concrete runs in which `serial_wire/target.cc` reports a failure although what it waits for has
    happened. */
module TargetLimits {
  import opened Bench
  import opened DebugPort
  import opened SerialWire
  import opened Target

  /** The seventh ABORT write clears the errors, and `clear_errors` reports that it has not. */
  method SevenErrors() returns (result: Ack, dp: Dp)
    ensures result == TOO_MANY_ATTEMPTS && dp.stuck == 0
  {
    hide Target.Synced, StopsAtFailure;
    var target := Connect(PoweredPort(BARE_DEVICE, 1024).(stuck := 7), []);
    result := target.ClearErrors();
    dp := target.Dp();
  }

  /** Power comes on with the thirty-first read, and `power_on` reports that it has not. */
  method SlowPower() returns (result: Ack, dp: Dp)
    ensures result == TOO_MANY_ATTEMPTS && Powered(dp)
  {
    hide Target.Synced, StopsAtFailure;
    var target := Connect(PoweredPort(BARE_DEVICE, 1024).(powerRequested := false, powerDelay := 31), []);
    result := target.PowerOn();
    dp := target.Dp();
  }
}
