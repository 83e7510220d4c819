/** A driver connected to a target that answers as scripted: where the concrete runs start. */
module Bench {
  import opened Bits
  import opened FlashController
  import opened DebugPort
  import opened MemoryBlocks
  import opened Wire
  import opened Programmer
  import opened SerialWire
  import opened Target

  /** A debug port with power on, no error, and the memory access port and its first bank selected. */
  function PoweredPort(device: Device, window: nat): Dp {
    Dp(0, 0, 0, 0, window, 0, 0, true, 0, 0, device)
  }

  /** A microcontroller without flash and memory. */
  const BARE_DEVICE: Device := Device([], map[], Locked, 0, {}, 0, 0, false, {}, [])

  lemma FirstBankSelected(device: Device, window: nat)
    ensures MemApSelected(PoweredPort(device, window)) && BankZero(PoweredPort(device, window))
  {
    hide GetField, ModifyField, Bit;
    WordWidths();
    forall i: nat ensures Bit(GetField(0, 8, 24), i) == Bit(0, i) {
      GetFieldBit(0, 8, 24, i);
      ZeroBit(i);
      ZeroBit(24 + i);
    }
    SameBits(GetField(0, 8, 24), 0);
    forall i: nat ensures Bit(WithBank(0, 0), i) == Bit(0, i) {
      ModifyFieldBit(0, 0, 4, 4, WORD_BITS, i);
      ZeroBit(i);
      if i >= 4 { ZeroBit(i - 4); }
    }
    SameBits(WithBank(0, 0), 0);
  }

  method Connect(dp: Dp, script: seq<Response>) returns (target: Target)
    requires dp.select == 0 && dp.window > 0 && ValidScript(script)
    ensures fresh(target) && fresh(target.swd) && fresh(target.swd.programmer)
    ensures target.Synced() && target.Dp() == dp && target.Script() == script
  {
    hide WithBank, GetField;
    var programmer := new ProgrammerStm32l4xx(Board(TurnToHost, dp, script));
    var swd := new SerialWire(programmer);
    target := new Target(swd);
  }
}
