/** Concrete runs in which `serial_wire/flash.cc` does not do what it is meant to do. */
module FlashLimits {
  import opened Bench
  import opened Bits
  import opened FlashController
  import opened FlashControl
  import opened FlashProgress
  import opened FlashStages
  import opened DebugPort
  import opened MemoryBlocks
  import opened Wire
  import opened SerialWire
  import opened Target
  import opened Flash

  method Connect(device: Device, window: nat, script: seq<Response>) returns (flash: Flash)
    requires ValidWindow(window) && ValidScript(script)
    ensures fresh(flash) && fresh(flash.target) && fresh(flash.target.swd) && fresh(flash.target.swd.programmer)
    ensures flash.Connected() && flash.Zero()
    ensures flash.Dev() == device && flash.Window() == window && flash.Script() == script
  {
    hide WithBank, GetField, BankZero, MemApSelected, Target.Synced;
    FirstBankSelected(device, window);
    var target := Bench.Connect(PoweredPort(device, window), script);
    flash := new Flash(target);
  }

  /** From every start from which `write_pages` cannot do its work there is a run in which it succeeds
      all the same; where the controller cannot be unlocked, nothing at all is written in it. */
  method WriteUnnoticed(device: Device, window: nat, startPage: nat, numPages: nat, source: seq<Word>)
    returns (success: Ack, after: Device)
    requires ValidWindow(window) && startPage + numPages <= |device.flash| <= 256
    requires PAGE_WORDS * (startPage + numPages) <= |source|
    ensures success == OK
    ensures var whole := device.history + Trace(Bit(device.cr, CR_MER), startPage, numPages, source, window);
      after.history == whole <==> CanWrite(device, startPage, numPages, source, window)
    ensures device.lock == Jammed ==> after.history == device.history
  {
    hide Bit, HasError, Trace, CanWrite, FoolingScript, Written, Follows;
    var script := FoolingScript(device, startPage, numPages, source, window);
    var flash := Connect(device, window, script);
    ghost var acked;
    success, acked := flash.WritePages(startPage, numPages, source);
    after := flash.Dev();
  }

  /** A mass erase whose last read of the control register is garbled fails and leaves the mass erase
      selected: the erase of one page that comes next, which succeeds, erases everything again. */
  method InterruptedMassErase(contents: seq<Page>, latency: nat, reportsEnd: bool, window: nat, page: nat)
    returns (first: Ack, second: Ack, after: Device)
    requires ValidWindow(window) && page < |contents| <= 256
    ensures first != OK && second == OK && after.history == [MassErased, MassErased]
  {
    hide HasError, WithBank, GetField, Replay, Bit;
    var device := Device(contents, map[], Unlocked, 0, {}, 0, latency, reportsEnd, {}, []);
    NoFlagsNoError(device);
    var script := Oks(4 * latency + 23) + [Response(ACK_OK, true, 0)];
    var flash := Connect(device, window, script);
    first := flash.MassEraseUnlocked();
    second := flash.ErasePageUnlocked(page);
    after := flash.Dev();
  }
}
