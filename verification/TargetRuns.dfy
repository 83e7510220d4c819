/** Whole runs of debug port operations: the cached SELECT value always agrees with the target, and
    every access port access goes to the register that it names, in the access port selected last. */
module TargetRuns {
  import opened Bits
  import opened FlashController
  import opened DebugPort
  import opened SerialWire
  import opened Target

  datatype Operation =
    | SelectPort(ap: nat)
    | SelectPortAndBank(ap: nat, bank: nat)
    | WritePort(addr: nat, value: Word)
    | ReadPort(addr: nat)
    | ReadBuffer
    | WriteAbort(value: Word)
    | WriteCtrlStat(value: Word)
    | ReadCtrlStat
    | WriteMemory(location: Word, value: Word)
    | ReadMemory(location: Word)

  predicate ValidOperation(op: Operation) {
    match op
    case SelectPort(ap) => ap < 0x100
    case SelectPortAndBank(ap, bank) => ap < 0x100 && bank < 0x100
    case WritePort(addr, value) => addr < 0x100 && addr % 4 == 0
    case ReadPort(addr) => addr < 0x100 && addr % 4 == 0
    case _ => true
  }

  /** What one operation did: its result, the word it returned and the debug port after it. */
  datatype Outcome = Outcome(result: Ack, received: Word, dp: Dp)

  /** Neither the selected access port nor its window has changed. */
  ghost predicate SameSelection(dp: Dp, after: Dp) {
    PortOf(after) == PortOf(dp) && after.window == dp.window
  }

  /** The effect that an acknowledged operation should have. The bank that SELECT holds afterwards is
      the only trace of how a register was reached. */
  ghost predicate Succeeded(dp: Dp, op: Operation, after: Outcome)
    requires ValidOperation(op) && dp.window > 0
  {
    match op
    case SelectPort(ap) => after.dp == dp.(select := WithAp(dp.select, ap))
    case SelectPortAndBank(ap, bank) => after.dp == dp.(select := FullSelect(ap, bank))
    case WritePort(addr, value) => after.dp == ApRegisterWrite(Banked(dp, addr), addr, value)
    case ReadPort(addr) =>
      var (v, e) := ApRegisterRead(Banked(dp, addr), addr);
      after.dp == e.(rdbuff := v) && after.received == dp.rdbuff
    case ReadBuffer => after.dp == dp && after.received == dp.rdbuff
    case WriteAbort(value) => after.dp == WriteRegister(dp, false, DP_ABORT, value)
    case WriteCtrlStat(value) => after.dp == WriteRegister(dp, false, DP_CTRL_STAT, value)
    case ReadCtrlStat => (after.received, after.dp) == ReadRegister(dp, false, DP_CTRL_STAT)
    case WriteMemory(location, value) =>
      && SameSelection(dp, after.dp)
      && after.dp.device == if MemApSelected(dp) then BusWrite(dp.device, location, value) else dp.device
    case ReadMemory(location) =>
      && SameSelection(dp, after.dp)
      && (after.received, after.dp.device) == if MemApSelected(dp) then BusRead(dp.device, location) else (0, dp.device)
  }

  /** After a failure the register was not written; a read may have happened without its data
      arriving, and so may either access to memory, whose last transfer can fail. */
  ghost predicate Failed(dp: Dp, op: Operation, after: Dp)
    requires ValidOperation(op) && dp.window > 0
  {
    match op
    case WritePort(addr, value) => after == dp || after == Banked(dp, addr)
    case ReadPort(addr) =>
      var (v, e) := ApRegisterRead(Banked(dp, addr), addr);
      after == dp || after == Banked(dp, addr) || after == e.(rdbuff := v)
    case ReadCtrlStat => after == dp || after == ReadRegister(dp, false, DP_CTRL_STAT).1
    case WriteMemory(location, value) =>
      && SameSelection(dp, after)
      && (after.device == dp.device || (MemApSelected(dp) && after.device == BusWrite(dp.device, location, value)))
    case ReadMemory(location) =>
      && SameSelection(dp, after)
      && (after.device == dp.device || (MemApSelected(dp) && after.device == BusRead(dp.device, location).1))
    case _ => after == dp
  }

  ghost predicate Explains(dp: Dp, op: Operation, after: Outcome) {
    && ValidOperation(op) && dp.window > 0
    && if after.result == OK then Succeeded(dp, op, after) else Failed(dp, op, after.dp)
  }

  /** A run: each outcome is explained by the operation and the state before it. */
  ghost predicate Run(dp: Dp, ops: seq<Operation>, outcomes: seq<Outcome>)
    requires |ops| == |outcomes|
  {
    if ops == [] then true
    else
      var n := |ops| - 1;
      Run(dp, ops[..n], outcomes[..n]) && Explains(StateAfter(dp, outcomes[..n]), ops[n], outcomes[n])
  }

  ghost function StateAfter(dp: Dp, outcomes: seq<Outcome>): Dp {
    if outcomes == [] then dp else outcomes[|outcomes| - 1].dp
  }

  predicate Selects(op: Operation) {
    op.SelectPort? || op.SelectPortAndBank?
  }

  /** The access port that the operations have selected. */
  ghost function SelectedBy(ap: nat, ops: seq<Operation>, outcomes: seq<Outcome>): nat
    requires |ops| == |outcomes|
  {
    if ops == [] then ap
    else
      var n := |ops| - 1;
      if Selects(ops[n]) && outcomes[n].result == OK then ops[n].ap else SelectedBy(ap, ops[..n], outcomes[..n])
  }

  lemma StepKeepsPort(dp: Dp, op: Operation, after: Outcome)
    requires Explains(dp, op, after)
    ensures PortOf(after.dp) == if Selects(op) && after.result == OK then op.ap else PortOf(dp)
    ensures after.dp.window == dp.window
  {
    hide ApRegisterRead, ApRegisterWrite, GetField, CtrlStat, BusRead, BusWrite;
    match op
    case WritePort(addr, value) => WriteKeepsSelection(Banked(dp, addr), addr, value);
    case ReadPort(addr) => ReadKeepsSelection(Banked(dp, addr), addr);
    case _ =>
  }

  lemma WriteKeepsSelection(dp: Dp, addr: nat, value: Word)
    requires dp.window > 0
    ensures var e := ApRegisterWrite(dp, addr, value); e.select == dp.select && e.window == dp.window
  {}

  lemma ReadKeepsSelection(dp: Dp, addr: nat)
    requires dp.window > 0
    ensures var e := ApRegisterRead(dp, addr).1; e.select == dp.select && e.window == dp.window
  {}

  /** In every run the selected access port is the one that the last successful selection asked for,
      whatever banks were selected and whatever failed in between. */
  lemma {:induction false} PortIsLastSelected(dp: Dp, ops: seq<Operation>, outcomes: seq<Outcome>)
    requires |ops| == |outcomes| && Run(dp, ops, outcomes)
    ensures PortOf(StateAfter(dp, outcomes)) == SelectedBy(PortOf(dp), ops, outcomes)
    ensures StateAfter(dp, outcomes).window == dp.window
  {
    if ops != [] {
      var n := |ops| - 1;
      PortIsLastSelected(dp, ops[..n], outcomes[..n]);
      StepKeepsPort(StateAfter(dp, outcomes[..n]), ops[n], outcomes[n]);
    }
  }

  /** An acknowledged write of a register reaches that register of the access port selected last. */
  lemma WriteReaches(dp: Dp, ops: seq<Operation>, outcomes: seq<Outcome>, i: nat)
    requires |ops| == |outcomes| && Run(dp, ops, outcomes) && i < |ops|
    requires ops[i].WritePort? && outcomes[i].result == OK
    ensures ValidOperation(ops[i]) && StateAfter(dp, outcomes[..i]).window > 0
    ensures var reached := Banked(StateAfter(dp, outcomes[..i]), ops[i].addr);
      && PortOf(reached) == SelectedBy(PortOf(dp), ops[..i], outcomes[..i])
      && ApAddress(reached, RegisterOf(ops[i].addr % 16)) == ops[i].addr
      && outcomes[i].dp == ApRegisterWrite(reached, ops[i].addr, ops[i].value)
  {
    RunPrefix(dp, ops, outcomes, i);
    PortIsLastSelected(dp, ops[..i], outcomes[..i]);
    BankedReaches(StateAfter(dp, outcomes[..i]), ops[i].addr);
  }

  /** An acknowledged access to memory reaches it exactly if the access port selected last is the one of
      the memory; through any other one a write is lost and a read returns zero. */
  lemma MemoryReached(dp: Dp, ops: seq<Operation>, outcomes: seq<Outcome>, i: nat)
    requires |ops| == |outcomes| && Run(dp, ops, outcomes) && i < |ops| && outcomes[i].result == OK
    requires ops[i].WriteMemory? || ops[i].ReadMemory?
    ensures var d := StateAfter(dp, outcomes[..i]).device;
      var reached := SelectedBy(PortOf(dp), ops[..i], outcomes[..i]) == 0;
      if ops[i].WriteMemory?
      then outcomes[i].dp.device == if reached then BusWrite(d, ops[i].location, ops[i].value) else d
      else (outcomes[i].received, outcomes[i].dp.device) == if reached then BusRead(d, ops[i].location) else (0, d)
  {
    RunPrefix(dp, ops, outcomes, i);
    PortIsLastSelected(dp, ops[..i], outcomes[..i]);
  }

  /** A read of the buffer right after a read of a register returns what that register held. */
  lemma PostedRead(dp: Dp, ops: seq<Operation>, outcomes: seq<Outcome>, i: nat)
    requires |ops| == |outcomes| && Run(dp, ops, outcomes) && i + 1 < |ops|
    requires ops[i].ReadPort? && outcomes[i].result == OK && ops[i + 1].ReadBuffer? && outcomes[i + 1].result == OK
    ensures ValidOperation(ops[i]) && StateAfter(dp, outcomes[..i]).window > 0
    ensures outcomes[i + 1].received
            == ApRegisterRead(Banked(StateAfter(dp, outcomes[..i]), ops[i].addr), ops[i].addr).0
  {
    hide ApRegisterRead, GetField, BusRead, Banked;
    RunPrefix(dp, ops, outcomes, i);
    RunPrefix(dp, ops, outcomes, i + 1);
    assert outcomes[..i + 1][i] == outcomes[i];
  }

  lemma {:induction false} RunPrefix(dp: Dp, ops: seq<Operation>, outcomes: seq<Outcome>, i: nat)
    requires |ops| == |outcomes| && Run(dp, ops, outcomes) && i < |ops|
    ensures Run(dp, ops[..i], outcomes[..i]) && Explains(StateAfter(dp, outcomes[..i]), ops[i], outcomes[i])
  {
    var n := |ops| - 1;
    if i < n {
      RunPrefix(dp, ops[..n], outcomes[..n], i);
      assert ops[..n][..i] == ops[..i] && outcomes[..n][..i] == outcomes[..i];
    }
  }

  /** One operation of a run. */
  method PerformOne(target: Target, op: Operation) returns (result: Ack, received: Word)
    requires target.Synced() && target.Dp().window > 0 && ValidOperation(op)
    modifies target`selectValue, target.swd`results, target.swd.programmer
    ensures target.Synced() && Explains(old(target.Dp()), op, Outcome(result, received, target.Dp()))
  {
    received := 0;
    match op {
      case SelectPort(ap) => result := target.SelectAp(ap);
      case SelectPortAndBank(ap, bank) => result := target.SelectApAndBank(ap, bank);
      case WritePort(addr, value) => result := target.ApWriteRegister(addr, value);
      case ReadPort(addr) => result, received := target.ApReadRegister(addr, 0);
      case ReadBuffer => result, received := target.ReadRdbuff(0);
      case WriteAbort(value) => result := target.WriteDpRegister(0x00, value);
      case WriteCtrlStat(value) => result := target.WriteDpRegister(0x04, value);
      case ReadCtrlStat => result, received := target.ReadCtrlStat(0);
      case WriteMemory(location, value) => result := target.ApWriteMem(location, value);
      case ReadMemory(location) => result, received := target.ApReadMem(location, 0);
    }
  }

  /** Any sequence of operations, over a wire that may answer anything, is such a run, and leaves the
      cached SELECT value in agreement with the target. */
  method Perform(target: Target, ops: seq<Operation>) returns (ghost outcomes: seq<Outcome>)
    requires target.Synced() && target.Dp().window > 0 && forall op <- ops :: ValidOperation(op)
    modifies target`selectValue, target.swd`results, target.swd.programmer
    ensures target.Synced()
    ensures |outcomes| == |ops| && Run(old(target.Dp()), ops, outcomes)
    ensures target.Dp() == StateAfter(old(target.Dp()), outcomes)
  {
    outcomes := [];
    ghost var dp := target.Dp();
    for i := 0 to |ops|
      invariant target.Synced() && |outcomes| == i && Run(dp, ops[..i], outcomes)
      invariant target.Dp() == StateAfter(dp, outcomes) && target.Dp().window == dp.window
    {
      ghost var before := outcomes;
      var result, received := PerformOne(target, ops[i]);
      StepKeepsPort(StateAfter(dp, before), ops[i], Outcome(result, received, target.Dp()));
      outcomes := before + [Outcome(result, received, target.Dp())];
      assert outcomes[..i] == before && ops[..i + 1][..i] == ops[..i];
    }
    assert ops[..|ops|] == ops;
  }
}
