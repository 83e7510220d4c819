/** The flash page writer (`serial_wire/flash.h`, `serial_wire/flash.cc`), on top of the debug port
    client and so of the wires themselves. */
module Flash {
  import opened Bits
  import opened FlashController
  import opened FlashControl
  import opened FlashContents
  import opened FlashProgress
  import opened FlashStages
  import opened DebugPort
  import opened MemoryBlocks
  import opened Wire
  import opened SerialWire
  import opened Target

  class Flash {
    const target: Target
    /** `flash_operation_status`: a global that keeps its value when a status read fails. */
    var operationStatus: Word

    constructor (target: Target)
      ensures this.target == target && operationStatus == 0
    {
      this.target := target;
      operationStatus := 0;
    }

    function Dev(): Device
      reads target.swd.programmer
    {
      target.Dp().device
    }

    /** Ready for memory accesses through the memory access port. */
    ghost predicate Connected()
      reads target, target.swd, target.swd.programmer
    {
      target.Synced() && MemApSelected(target.Dp()) && ValidWindow(target.Dp().window)
    }

    ghost function Window(): nat
      reads target.swd.programmer
    {
      target.Dp().window
    }

    /** The bank of the memory accesses is selected. */
    ghost predicate Zero()
      reads target.swd.programmer
    {
      BankZero(target.Dp())
    }

    ghost function Script(): seq<Response>
      reads target.swd.programmer
    {
      target.Script()
    }

    /** What every call keeps of the debug port. */
    ghost predicate Kept(window: nat, zero: bool)
      reads target, target.swd, target.swd.programmer
    {
      Connected() && Window() == window && (zero ==> Zero())
    }

    /** The number of scripted answers still to come: what bounds the number of failures. */
    ghost function AnswersLeft(): nat
      reads target.swd.programmer
    {
      |target.Script()|
    }

    method ReadStatus(status: Word) returns (success: Ack, value: Word)
      requires Connected()
      modifies target`selectValue, target.swd`results, target.swd.programmer
      ensures Kept(old(Window()), old(Zero())) && Flow(old(Zero()), old(Script()), 4, success, Script())
      ensures success == OK ==> Shows(old(Dev()), value) && Dev().busy == Minus(old(Dev()).busy, 1)
      ensures SameButBusy(old(Dev()), Dev())
      ensures AnswersLeft() <= old(AnswersLeft()) && (success != OK ==> AnswersLeft() < old(AnswersLeft()))
      ensures old(Zero()) && GarblesFourth(old(Script())) ==>
                && success != OK && value == old(Script())[3].noise && Script() == Drop(old(Script()), 4)
                && Dev().busy == Minus(old(Dev()).busy, 1)
    {
      hide Bit, WithBank, GetField, Status, Flow, StartsOk;
      forall i: nat
        ensures Bit(Status(Dev()), i) == if i < 10 then i in Dev().flags else (i == SR_BSY && Dev().busy > 0)
      {
        StatusBit(Dev(), i);
      }
      success, value := target.ApReadMem(FLASH_SR, status);
    }

    /** `wait_while_busy`. */
    method WaitWhileBusy() returns (success: Ack)
      requires Connected()
      modifies target`selectValue, target.swd`results, target.swd.programmer
      ensures Kept(old(Window()), old(Zero()))
      ensures Flow(old(Zero()), old(Script()), 4 * (old(Dev()).busy + 1), success, Script())
      ensures SameButBusy(old(Dev()), Dev()) && (success == OK ==> Dev().busy == 0)
    {
      hide Bit, WithBank, GetField, Flow, Target.Synced, BankZero, MemApSelected;
      ghost var zero, script, busy := Zero(), Script(), Dev().busy;
      var flashStatus: Word;
      success, flashStatus := ReadStatus(0);
      ghost var reads_ := 1;
      while success == OK && Bit(flashStatus, SR_BSY)
        invariant Kept(old(Window()), zero) && SameButBusy(old(Dev()), Dev())
        invariant success == OK ==> Dev().busy == Minus(busy, reads_) && Bit(flashStatus, SR_BSY) == (reads_ <= busy)
        invariant 1 <= reads_ <= busy + 1 && Flow(zero, script, 4 * reads_, success, Script())
        decreases AnswersLeft() + Dev().busy + if success == OK && Bit(flashStatus, SR_BSY) then 1 else 0
      {
        ghost var before, now := Script(), Zero();
        success, flashStatus := ReadStatus(flashStatus);
        FlowThen(zero, script, 4 * reads_, OK, before, now, 4, success, Script());
        reads_ := reads_ + 1;
      }
      if success != OK {
        ghost var more := 4 * (busy + 1 - reads_);
        FlowThen(zero, script, 4 * reads_, success, Script(), Zero(), more, success, Script());
      }
    }

    method ReadControl() returns (success: Ack, control: Word)
      requires Connected()
      modifies target`selectValue, target.swd`results, target.swd.programmer
      ensures Kept(old(Window()), old(Zero())) && Dev() == old(Dev())
      ensures Flow(old(Zero()), old(Script()), 4, success, Script())
      ensures success == OK ==>
                && SelectionOf(control) == SelectionOf(Dev().cr)
                && !Bit(control, CR_STRT) && Bit(control, CR_LOCK) == (Dev().lock != Unlocked)
      ensures old(Zero()) && GarblesFourth(old(Script())) ==> success != OK && Script() == Drop(old(Script()), 4)
    {
      hide Bit, WithBank, GetField, Control, Flow, StartsOk;
      ControlRead(Dev());
      success, control := target.ApReadMem(FLASH_CR, 0);
    }

    method WriteControl(control: Word) returns (success: Ack)
      requires Connected()
      modifies target`selectValue, target.swd`results, target.swd.programmer
      ensures Kept(old(Window()), old(Zero())) && Flow(old(Zero()), old(Script()), 4, success, Script())
      ensures if success == OK then AfterControl(old(Dev()), control, Dev())
              else Dev() == old(Dev()) || AfterControl(old(Dev()), control, Dev())
    {
      hide Bit, WithBank, GetField, BusWrite, Flow;
      ControlWritten(Dev(), control);
      success := target.ApWriteMem(FLASH_CR, control);
    }

    /** Changing the selection, with a control word made of the one that was read. */
    method Select(control: Word) returns (success: Ack)
      requires Connected() && !Bit(control, CR_STRT) && Bit(control, CR_LOCK) == (Dev().lock != Unlocked)
      requires Bit(control, CR_MER) ==> Bit(Dev().cr, CR_MER)
      modifies target`selectValue, target.swd`results, target.swd.programmer
      ensures Kept(old(Window()), old(Zero())) && Flow(old(Zero()), old(Script()), 4, success, Script())
      ensures OnlyControl(old(Dev()), Dev())
      ensures success == OK && Dev().lock == Unlocked ==> SelectionOf(Dev().cr) == SelectionOf(control)
      ensures Dev().lock != Unlocked ==> Dev() == old(Dev())
    {
      hide Bit, WithBank, GetField, Flow, AfterControl;
      ghost var d := Dev();
      success := WriteControl(control);
      if Dev() != d || success == OK { Selected(d, control, Dev()); }
    }

    /** The end of `erase_page_unlocked` and of `mass_erase_unlocked`: clears the erase bits. */
    method ClearErase() returns (success: Ack)
      requires Connected()
      modifies target`selectValue, target.swd`results, target.swd.programmer
      ensures Kept(old(Window()), old(Zero())) && Flow(old(Zero()), old(Script()), 8, success, Script())
      ensures OnlyControl(old(Dev()), Dev())
      ensures success == OK && Dev().lock == Unlocked ==> !Bit(Dev().cr, CR_PER) && !Bit(Dev().cr, CR_MER)
      ensures old(Zero()) && GarblesFourth(old(Script())) ==>
                success != OK && Dev() == old(Dev()) && Script() == Drop(old(Script()), 4)
    {
      hide Bit, WithBank, GetField, Flow, StartsOk;
      ghost var zero, script := Zero(), Script();
      var control;
      success, control := ReadControl();
      if success != OK {
        FlowFails(zero, script, 4, 8, success, Script());
        return;
      }
      ghost var middle, now := Script(), Zero();
      control := ChangeBit(control, false, CR_MER);
      control := ChangeBit(control, false, CR_PER);
      success := Select(control);
      FlowThen(zero, script, 4, OK, middle, now, 4, success, Script());
    }

    /** Selecting the erase of a page. */
    method SelectErase(page: nat) returns (success: Ack, control: Word)
      requires Connected() && page < 256
      modifies target`selectValue, target.swd`results, target.swd.programmer
      ensures Kept(old(Window()), old(Zero())) && Flow(old(Zero()), old(Script()), 8, success, Script())
      ensures OnlyControl(old(Dev()), Dev())
      ensures success == OK ==>
                && Bit(Dev().cr, CR_MER) == Bit(old(Dev()).cr, CR_MER)
                && Bit(control, CR_LOCK) == (Dev().lock != Unlocked)
                && SelectionOf(control) == Selection(SelectionOf(control).program, true, Bit(Dev().cr, CR_MER), page)
    {
      hide Bit, WithBank, GetField, Flow;
      ghost var zero, script := Zero(), Script();
      success, control := ReadControl();
      if success != OK {
        FlowFails(zero, script, 4, 8, success, Script());
        return;
      }
      ghost var middle, now := Script(), Zero();
      control := ChangePage(control, page);
      control := ChangeBit(control, true, CR_PER);
      success := Select(control);
      FlowThen(zero, script, 4, OK, middle, now, 4, success, Script());
    }

    /** Starting the erase that is selected. */
    method StartPageErase(page: nat, control: Word) returns (success: Ack)
      requires Connected() && page < |Dev().flash| && Dev().busy == 0
      requires Bit(control, CR_LOCK) == (Dev().lock != Unlocked)
      requires SelectionOf(control) == Selection(SelectionOf(control).program, true, Bit(Dev().cr, CR_MER), page)
      modifies target`selectValue, target.swd`results, target.swd.programmer
      ensures Kept(old(Window()), old(Zero())) && Flow(old(Zero()), old(Script()), 4, success, Script())
      ensures Steady(old(Dev()), Dev())
      ensures Dev().history == old(Dev()).history || EraseRecorded(old(Dev()), Dev(), page)
      ensures success == OK ==>
                if EraseTakes(old(Dev()), page)
                then EraseRecorded(old(Dev()), Dev(), page) && !HasError(Dev()) && Dev().busy == old(Dev()).latency
                else RefusedNow(old(Dev()), Dev()) && Dev().busy == 0
    {
      hide Bit, WithBank, GetField, Flow, HasError, EraseTakes;
      ghost var d := Dev();
      FollowsSelf(d, d);
      var start := ChangeBit(control, true, CR_STRT);
      success := WriteControl(start);
      if Dev() != d || success == OK { EraseStarted(d, start, Dev(), page); }
    }

    /** `erase_page_unlocked` on a controller that is not busy. */
    method EraseIdlePage(page: nat) returns (success: Ack)
      requires Connected() && page < |Dev().flash| <= 256 && Dev().busy == 0
      modifies target`selectValue, target.swd`results, target.swd.programmer
      ensures Kept(old(Window()), old(Zero())) && Steady(old(Dev()), Dev())
      ensures Flow(old(Zero()), old(Script()), IdleEraseCount(old(Dev()), page), success, Script())
      ensures Dev().history == old(Dev()).history || EraseRecorded(old(Dev()), Dev(), page)
      ensures success == OK ==> Dev().busy == 0 && EraseTried(old(Dev()), Dev(), page)
    {
      hide Bit, WithBank, GetField, Flow, HasError, EraseTakes, Target.Synced, BankZero, MemApSelected;
      ghost var d, zero, script, total := Dev(), Zero(), Script(), IdleEraseCount(Dev(), page);
      if EraseTakes(d, page) { TakenMeans(d, page); }
      var control;
      success, control := SelectErase(page);
      OnlyControlSteady(d, Dev());
      if success != OK {
        FlowFails(zero, script, 8, total, success, Script());
        return;
      }
      SameErase(d, Dev(), page);
      ghost var e, middle, now := Dev(), Script(), Zero();
      success := StartPageErase(page, control);
      SteadyTransitive(d, e, Dev());
      FlowThen(zero, script, 8, OK, middle, now, 4, success, Script());
      if success != OK {
        FlowFails(zero, script, 12, total, success, Script());
        return;
      }
      e, middle, now := Dev(), Script(), Zero();
      success := WaitWhileBusy();
      WaitedSteady(e, Dev());
      SteadyTransitive(d, e, Dev());
      SameErrors(e, Dev());
      FlowThen(zero, script, 12, OK, middle, now, 4 * (e.busy + 1), success, Script());
      if success != OK {
        FlowFails(zero, script, 12 + 4 * (e.busy + 1), total, success, Script());
        return;
      }
      e, middle, now := Dev(), Script(), Zero();
      success := ClearErase();
      OnlyControlSteady(e, Dev());
      SteadyTransitive(d, e, Dev());
      SameErrors(e, Dev());
      FlowThen(zero, script, total - 8, OK, middle, now, 8, success, Script());
    }

    /** `erase_page_unlocked`. What it erases is just the page, exactly if no mass erase is still
        selected, and everything otherwise. If the controller does not accept the erase, the call
        succeeds nevertheless, and leaves a controller that accepts nothing. */
    method ErasePageUnlocked(page: nat) returns (success: Ack)
      requires Connected() && page < |Dev().flash| <= 256
      modifies target`selectValue, target.swd`results, target.swd.programmer
      ensures Kept(old(Window()), old(Zero())) && Steady(old(Dev()), Dev())
      ensures Flow(old(Zero()), old(Script()), EraseCount(old(Dev()), page), success, Script())
      ensures Dev().history == old(Dev()).history || EraseRecorded(old(Dev()), Dev(), page)
      ensures success == OK ==> Dev().busy == 0 && EraseTried(old(Dev()), Dev(), page)
      ensures success == OK && EraseTakes(old(Dev()), page) ==>
                (Dev().history == old(Dev()).history + [Erased(page)] <==> !Bit(old(Dev()).cr, CR_MER))
      ensures !Bit(old(Dev()).cr, CR_MER) ==>
                forall p | 0 <= p < |old(Dev()).flash| && p != page :: Dev().flash[p] == old(Dev()).flash[p]
      ensures success == OK && EraseTakes(old(Dev()), page) && Bit(old(Dev()).cr, CR_MER) ==> AllBlank(Dev().flash)
    {
      hide Bit, WithBank, GetField, Flow, HasError, EraseTakes, AllBlank, Blank, Replay, Target.Synced;
      ghost var d, zero, script := Dev(), Zero(), Script();
      ghost var count, total := 4 * (d.busy + 1), EraseCount(d, page);
      success := WaitWhileBusy();
      WaitedSteady(d, Dev());
      EraseContents(d, Dev(), page);
      if success != OK {
        FlowFails(zero, script, count, total, success, Script());
        return;
      }
      ghost var e, middle, now := Dev(), Script(), Zero();
      success := EraseIdlePage(page);
      SteadyTransitive(d, e, Dev());
      SameErase(d, e, page);
      EraseContents(d, Dev(), page);
      FlowThen(zero, script, count, OK, middle, now, IdleEraseCount(e, page), success, Script());
    }

    /** Selecting a mass erase. */
    method SelectMassErase() returns (success: Ack, control: Word)
      requires Connected()
      modifies target`selectValue, target.swd`results, target.swd.programmer
      ensures Kept(old(Window()), old(Zero())) && Flow(old(Zero()), old(Script()), 8, success, Script())
      ensures Dev() == old(Dev()).(cr := Dev().cr)
      ensures success == OK ==> Bit(control, CR_MER) && Bit(control, CR_LOCK) == (Dev().lock != Unlocked)
    {
      hide Bit, WithBank, GetField, Flow;
      ghost var zero, script := Zero(), Script();
      success, control := ReadControl();
      if success != OK {
        FlowFails(zero, script, 4, 8, success, Script());
        return;
      }
      ghost var middle, now := Script(), Zero();
      control := ChangeBit(control, true, CR_MER);
      success := WriteControl(control);
      FlowThen(zero, script, 4, OK, middle, now, 4, success, Script());
    }

    /** Starting the mass erase that is selected. */
    method StartMassErase(control: Word) returns (success: Ack)
      requires Connected() && Dev().busy == 0
      requires Bit(control, CR_MER) && Bit(control, CR_LOCK) == (Dev().lock != Unlocked)
      modifies target`selectValue, target.swd`results, target.swd.programmer
      ensures Kept(old(Window()), old(Zero())) && Flow(old(Zero()), old(Script()), 4, success, Script())
      ensures Follows(old(Dev()), Dev()) && Dev().lock == old(Dev()).lock
      ensures Dev().history == old(Dev()).history || MassEraseRecorded(old(Dev()), Dev())
      ensures success == OK ==>
                if MassEraseTakes(old(Dev()))
                then
                  && MassEraseRecorded(old(Dev()), Dev()) && Bit(Dev().cr, CR_MER)
                  && Dev().busy == old(Dev()).latency
                else RefusedNow(old(Dev()), Dev()) && Dev().busy == 0
    {
      hide Bit, WithBank, GetField, Flow, HasError, Target.Synced, BankZero, MemApSelected;
      ghost var d := Dev();
      FollowsSelf(d, d);
      var start := ChangeBit(control, true, CR_STRT);
      success := WriteControl(start);
      if Dev() != d || success == OK { MassEraseStarted(d, start, Dev()); }
    }

    /** `mass_erase_unlocked` up to the end of the erase, on a controller that is not busy. */
    method RunMassErase() returns (success: Ack)
      requires Connected() && Dev().busy == 0
      modifies target`selectValue, target.swd`results, target.swd.programmer
      ensures Kept(old(Window()), old(Zero())) && Follows(old(Dev()), Dev()) && Dev().lock == old(Dev()).lock
      ensures Flow(old(Zero()), old(Script()), MassEraseCount(old(Dev())) - 4, success, Script())
      ensures Dev().history == old(Dev()).history || MassEraseRecorded(old(Dev()), Dev())
      ensures success == OK ==>
                && Dev().busy == 0
                && if MassEraseTakes(old(Dev())) then MassEraseRecorded(old(Dev()), Dev()) && Bit(Dev().cr, CR_MER)
                   else RefusedNow(old(Dev()), Dev())
    {
      hide Bit, WithBank, GetField, Flow, HasError, Follows, Target.Synced, BankZero, MemApSelected;
      ghost var d, zero, script, total := Dev(), Zero(), Script(), MassEraseCount(Dev()) - 4;
      var control;
      success, control := SelectMassErase();
      FollowsSelf(d, Dev());
      if success != OK {
        FlowFails(zero, script, 8, total, success, Script());
        return;
      }
      ghost var e, middle, now := Dev(), Script(), Zero();
      SameErrors(d, e);
      success := StartMassErase(control);
      FollowsTransitive(d, e, Dev());
      FlowThen(zero, script, 8, OK, middle, now, 4, success, Script());
      if success != OK {
        FlowFails(zero, script, 12, total, success, Script());
        return;
      }
      e, middle, now := Dev(), Script(), Zero();
      success := WaitWhileBusy();
      FollowsSelf(e, Dev());
      FollowsTransitive(d, e, Dev());
      SameErrors(e, Dev());
      FlowThen(zero, script, 12, OK, middle, now, 4 * (e.busy + 1), success, Script());
      if success != OK { FlowFails(zero, script, 12 + 4 * (e.busy + 1), total, success, Script()); }
    }

    /** `mass_erase_unlocked`. If the read of the control register after the erase fails, everything is
        erased and the mass erase stays selected. */
    method MassEraseUnlocked() returns (success: Ack)
      requires Connected()
      modifies target`selectValue, target.swd`results, target.swd.programmer
      ensures Kept(old(Window()), old(Zero())) && Follows(old(Dev()), Dev()) && Dev().lock == old(Dev()).lock
      ensures Dev().history == old(Dev()).history || MassEraseRecorded(old(Dev()), Dev())
      ensures success == OK ==>
                && Dev().busy == 0
                && if MassEraseTakes(old(Dev()))
                   then MassEraseRecorded(old(Dev()), Dev()) && !Bit(Dev().cr, CR_PER) && !Bit(Dev().cr, CR_MER)
                   else RefusedNow(old(Dev()), Dev())
      ensures var count := MassEraseCount(old(Dev()));
        old(Zero()) && StartsOk(old(Script()), count) && GarblesFourth(Drop(old(Script()), count)) ==>
          && success != OK && Dev().busy == 0 && Script() == Drop(old(Script()), count + 4)
          && (MassEraseTakes(old(Dev())) ==> MassEraseRecorded(old(Dev()), Dev()) && Bit(Dev().cr, CR_MER))
      ensures AllOk(old(Script())) ==> success == OK && AllOk(Script())
    {
      hide Bit, WithBank, GetField, StartsOk, HasError, Target.Synced, BankZero, MemApSelected;
      ghost var d, zero, script, total := Dev(), Zero(), Script(), MassEraseCount(Dev());
      success := WaitWhileBusy();
      FollowsSelf(d, Dev());
      SameErrors(d, Dev());
      if success != OK {
        FlowFails(zero, script, 4 * (d.busy + 1), total, success, Script());
        return;
      }
      ghost var e, middle, now := Dev(), Script(), Zero();
      success := RunMassErase();
      FollowsTransitive(d, e, Dev());
      FlowThen(zero, script, 4 * (d.busy + 1), OK, middle, now, MassEraseCount(e) - 4, success, Script());
      if success != OK { return; }
      e := Dev();
      StartsOkThen(script, total, 4);
      success := ClearErase();
      FollowsSelf(e, Dev());
      FollowsTransitive(d, e, Dev());
      SameErrors(e, Dev());
    }

    /** Selecting a page for programming, after it was erased. */
    method SelectProgramming(page: nat) returns (success: Ack)
      requires Connected() && page < 256
      modifies target`selectValue, target.swd`results, target.swd.programmer
      ensures Kept(old(Window()), old(Zero())) && Flow(old(Zero()), old(Script()), 8, success, Script())
      ensures OnlyControl(old(Dev()), Dev())
      ensures success == OK && Dev().lock == Unlocked ==> Bit(Dev().cr, CR_PG) && !Bit(Dev().cr, CR_PER)
    {
      hide Bit, WithBank, GetField, Flow;
      ghost var zero, script := Zero(), Script();
      var control;
      success, control := ReadControl();
      if success != OK {
        FlowFails(zero, script, 4, 8, success, Script());
        return;
      }
      ghost var middle, now := Script(), Zero();
      control := ChangePage(control, page);
      control := ChangeBit(control, false, CR_PER);
      control := ChangeBit(control, true, CR_PG);
      success := Select(control);
      FlowThen(zero, script, 4, OK, middle, now, 4, success, Script());
    }

    /** Clearing the programming bits. */
    method DeselectProgramming(page: nat) returns (success: Ack)
      requires Connected() && page < 256
      modifies target`selectValue, target.swd`results, target.swd.programmer
      ensures Kept(old(Window()), old(Zero())) && Flow(old(Zero()), old(Script()), 8, success, Script())
      ensures OnlyControl(old(Dev()), Dev())
      ensures success == OK && Dev().lock == Unlocked ==> !Bit(Dev().cr, CR_PG)
    {
      hide Bit, WithBank, GetField, Flow;
      ghost var zero, script := Zero(), Script();
      var control;
      success, control := ReadControl();
      if success != OK {
        FlowFails(zero, script, 4, 8, success, Script());
        return;
      }
      ghost var middle, now := Script(), Zero();
      control := ChangePage(control, page);
      control := ChangeBit(control, false, CR_FSTPG);
      control := ChangeBit(control, false, CR_PG);
      success := Select(control);
      FlowThen(zero, script, 4, OK, middle, now, 4, success, Script());
    }

    /** Polls the status until it no longer shows an operation in progress. A failed poll goes
        unnoticed by the driver; `acked` tells whether there was one. A garbled zero ends the polls. */
    method PollStatus() returns (ghost acked: bool)
      requires Connected()
      modifies this`operationStatus, target`selectValue, target.swd`results, target.swd.programmer
      ensures Kept(old(Window()), old(Zero())) && SameButBusy(old(Dev()), Dev())
      ensures acked ==>
                && ReportsError(operationStatus) == HasError(Dev())
                && Bit(operationStatus, SR_EOP) == (SR_EOP in Dev().flags)
      ensures old(Zero()) && GarblesFourth(old(Script())) && old(Script())[3].noise == 0 ==>
                && operationStatus == 0 && Script() == Drop(old(Script()), 4)
                && Dev().busy == Minus(old(Dev()).busy, 1)
      ensures AllOk(old(Script())) ==> acked && AllOk(Script())
    {
      hide Bit, WithBank, GetField, StartsOk, AllOk, Target.Synced, BankZero, MemApSelected;
      NoStatus();
      ghost var fooled := Zero() && GarblesFourth(Script()) && Script()[3].noise == 0;
      var success: Ack;
      success, operationStatus := ReadStatus(operationStatus);
      acked := success == OK;
      if acked { ErrorsShow(old(Dev()), operationStatus); }
      while Bit(operationStatus, SR_BSY)
        invariant Kept(old(Window()), old(Zero())) && SameButBusy(old(Dev()), Dev())
        invariant acked ==>
                    && ReportsError(operationStatus) == HasError(Dev())
                    && Bit(operationStatus, SR_EOP) == (SR_EOP in Dev().flags)
        invariant fooled ==>
                    && operationStatus == 0 && Script() == Drop(old(Script()), 4)
                    && Dev().busy == Minus(old(Dev()).busy, 1)
        invariant AllOk(old(Script())) ==> acked && AllOk(Script())
        decreases AnswersLeft() + Dev().busy + if Bit(operationStatus, SR_BSY) then 1 else 0
      {
        ghost var d := Dev();
        success, operationStatus := ReadStatus(operationStatus);
        acked := acked && success == OK;
        if acked { ErrorsShow(d, operationStatus); }
      }
    }

    /** Clears the end-of-operation flag, and the error flags with it. */
    method ClearFlags() returns (success: Ack)
      requires Connected()
      modifies this`operationStatus, target`selectValue, target.swd`results, target.swd.programmer
      ensures Kept(old(Window()), old(Zero())) && Flow(old(Zero()), old(Script()), 4, success, Script())
      ensures Dev() == old(Dev()).(flags := Dev().flags) && Dev().flags <= old(Dev()).flags
      ensures success == OK ==> Dev().flags * (ERROR_FLAGS + {SR_EOP}) == {}
    {
      hide Bit, WithBank, GetField, Flow;
      var v := operationStatus;
      v := ChangeBit(v, true, 0);
      v := ChangeBit(v, true, 1);
      v := ChangeBit(v, true, 3);
      v := ChangeBit(v, true, 4);
      v := ChangeBit(v, true, 5);
      v := ChangeBit(v, true, 6);
      v := ChangeBit(v, true, 7);
      v := ChangeBit(v, true, 8);
      v := ChangeBit(v, true, 9);
      operationStatus := v;
      success := target.ApWriteMem(FLASH_SR, v);
    }

    /** The first half of a pass of the loop of `write_pages`: up to selecting the programming
        operation. */
    method PreparePage(page: nat) returns (success: Ack)
      requires Connected() && page < |Dev().flash| <= 256
      modifies target`selectValue, target.swd`results, target.swd.programmer
      ensures Kept(old(Window()), old(Zero())) && Steady(old(Dev()), Dev())
      ensures Flow(old(Zero()), old(Script()), PrepareCount(old(Dev()), page), success, Script())
      ensures Dev().history == old(Dev()).history || EraseRecorded(old(Dev()), Dev(), page)
      ensures success == OK ==>
                && Prepared(Dev(), page, EraseTakes(old(Dev()), page))
                && if EraseTakes(old(Dev()), page) then EraseRecorded(old(Dev()), Dev(), page)
                   else Dev().history == old(Dev()).history
    {
      hide Bit, WithBank, GetField, Flow, HasError, EraseTakes, Target.Synced, BankZero, MemApSelected;
      ghost var d, zero, script, total := Dev(), Zero(), Script(), PrepareCount(Dev(), page);
      success := WaitWhileBusy();
      WaitedSteady(d, Dev());
      SameErase(d, Dev(), page);
      if success != OK {
        FlowFails(zero, script, 4 * (d.busy + 1), total, success, Script());
        return;
      }
      ghost var e, middle, now := Dev(), Script(), Zero();
      success := ErasePageUnlocked(page);
      SteadyTransitive(d, e, Dev());
      FlowThen(zero, script, 4 * (d.busy + 1), OK, middle, now, EraseCount(e, page), success, Script());
      if success != OK {
        FlowFails(zero, script, total - 8, total, success, Script());
        return;
      }
      e, middle, now := Dev(), Script(), Zero();
      success := SelectProgramming(page);
      OnlyControlSteady(e, Dev());
      SteadyTransitive(d, e, Dev());
      SameErrors(e, Dev());
      FlowThen(zero, script, total - 8, OK, middle, now, 8, success, Script());
    }

    /** What follows the polls after a block: an error that they show fails the call, and the end of
        an operation that they show is cleared. */
    method EndBatch(page: nat, sofar: Ack) returns (success: Ack)
      requires Connected() && page < 256
      modifies this`operationStatus, target`selectValue, target.swd`results, target.swd.programmer
      ensures Kept(old(Window()), old(Zero())) && Steady(old(Dev()), Dev())
      ensures Dev().history == old(Dev()).history && Dev().flags <= old(Dev()).flags
      ensures success == OK ==>
                && sofar == OK && !ReportsError(old(operationStatus))
                && (Bit(old(operationStatus), SR_EOP) ==> SR_EOP !in Dev().flags)
                && (Dev().lock == Unlocked ==> !Bit(Dev().cr, CR_PG))
      ensures AllOk(old(Script())) ==>
                AllOk(Script()) && (sofar == OK && !ReportsError(old(operationStatus)) ==> success == OK)
      ensures sofar == OK && old(operationStatus) == 0 ==>
                && Flow(old(Zero()), old(Script()), 8, success, Script())
                && Dev().flags == old(Dev()).flags && Dev().busy == old(Dev()).busy
    {
      hide Bit, WithBank, GetField, StartsOk, AllOk, HasError, ReportsError, Target.Synced, BankZero, MemApSelected;
      NoStatus();
      ghost var d := Dev();
      FollowsSelf(d, d);
      success := sofar;
      if ReportsError(operationStatus) {
        success := ERROR;
      }
      if success == OK && Bit(operationStatus, SR_EOP) {
        success := ClearFlags();
        FollowsSelf(d, Dev());
      }
      if success == OK {
        ghost var e := Dev();
        success := DeselectProgramming(page);
        OnlyControlSteady(e, Dev());
        SteadyTransitive(d, e, Dev());
      }
    }

    /** Writes the words of a page as one block. */
    method ProgramBlock(page: nat, words: seq<Word>, ghost taken: bool) returns (success: Ack, ghost placed: nat)
      requires Connected() && |Dev().flash| <= 256 && |words| == PAGE_WORDS && Prepared(Dev(), page, taken)
      modifies target`selectValue, target.swd`results, target.swd.programmer
      ensures Kept(old(Window()), old(Zero())) && Steady(old(Dev()), Dev())
      ensures Flow(old(Zero()), old(Script()), BLOCK_COUNT, success, Script())
      ensures Placed(old(Dev()), Dev(), page, words, old(Window()), taken, placed)
      ensures success == OK ==> BlockEnded(old(Dev()), Dev(), words, old(Window()), taken, placed)
    {
      hide WithBank, Flow, HasError, NoOverwrite, Went, Steady, Placed, BlockEnded;
      ghost var d, window := Dev(), Window();
      ghost var written;
      success, written := target.ApWriteBlock(PageAddress(page), words);
      placed := BlockWritten(d, page, words, written, window, taken);
    }

    /** Programming is no longer selected, and the end of the operation is cleared if it was seen. */
    ghost predicate LeftIdle(acked: bool)
      reads target.swd.programmer
    {
      (Dev().lock == Unlocked ==> !Bit(Dev().cr, CR_PG)) && (acked ==> SR_EOP !in Dev().flags)
    }

    /** The second half: a whole page in one batch, the status, and the end of programming. `placed`
        words of the page were programmed, and `acked` tells whether every poll of the status was
        acknowledged. */
    method WriteBatch(page: nat, words: seq<Word>, ghost taken: bool)
      returns (success: Ack, ghost acked: bool, ghost placed: nat)
      requires Connected() && |Dev().flash| <= 256 && |words| == PAGE_WORDS && Prepared(Dev(), page, taken)
      modifies this`operationStatus, target`selectValue, target.swd`results, target.swd.programmer
      ensures Kept(old(Window()), old(Zero())) && Steady(old(Dev()), Dev())
      ensures Placed(old(Dev()), Dev(), page, words, old(Window()), taken, placed)
      ensures success == OK && taken && NoOverwrite(words, old(Window())) ==> placed == PAGE_WORDS && !HasError(Dev())
      ensures success == OK && acked ==> taken && NoOverwrite(words, old(Window()))
      ensures success == OK ==> LeftIdle(acked)
      ensures AllOk(old(Script())) ==>
                acked && AllOk(Script()) && (taken && NoOverwrite(words, old(Window())) ==> success == OK)
      ensures old(Zero()) && Fools(old(Script()), BLOCK_COUNT) ==>
                && success == OK && Script() == Drop(old(Script()), BLOCK_COUNT + 12)
                && Dev().busy == (if taken then Minus(old(Dev()).latency, 1) else 0)
                && (!(taken && NoOverwrite(words, old(Window()))) ==> HasError(Dev()))
                && (taken && !NoOverwrite(words, old(Window())) ==> SR_PROGERR in Dev().flags)
    {
      hide Bit, WithBank, GetField, HasError, NoOverwrite, ReportsError, StartsOk, AllOk, Follows, ProgramEvents,
           Target.Synced, BankZero, MemApSelected;
      ghost var d, script := Dev(), Script();
      success, placed := ProgramBlock(page, words, taken);
      ghost var e := Dev();
      acked := PollStatus();
      WaitedSteady(e, Dev());
      SteadyTransitive(d, e, Dev());
      SameErrors(e, Dev());
      StartsOkThen(script, BLOCK_COUNT, 4);
      StartsOkThen(script, BLOCK_COUNT + 4, 8);
      e := Dev();
      success := EndBatch(page, success);
      SteadyTransitive(d, e, Dev());
      FewerErrors(e, Dev());
      FewerErrors(Dev(), e);
    }

    /** One pass of the loop of `write_pages`. `done` counts the events of this page that happened,
        and `acked` tells whether every poll of the status after programming was acknowledged. */
    method WritePage(page: nat, source: seq<Word>) returns (success: Ack, ghost acked: bool, ghost done: nat)
      requires Connected() && page < |Dev().flash| <= 256 && PAGE_WORDS * page + PAGE_WORDS <= |source|
      modifies this`operationStatus, target`selectValue, target.swd`results, target.swd.programmer
      ensures Kept(old(Window()), old(Zero())) && Steady(old(Dev()), Dev())
      ensures PageDone(old(Dev()), Dev(), page, PageOfSource(page, source), old(Window()), done, acked, success == OK)
      ensures AllOk(old(Script())) ==>
                && acked && AllOk(Script())
                && (success == OK <==> TakesPage(old(Dev()), page, PageOfSource(page, source), old(Window())))
      ensures success == OK ==> LeftIdle(acked)
      ensures old(Zero()) && Fools(old(Script()), PageCount(old(Dev()), page)) ==>
                && success == OK && Script() == Drop(old(Script()), PageCount(old(Dev()), page) + 12)
                && PageMissed(old(Dev()), Dev(), page, PageOfSource(page, source), old(Window()))
    {
      hide Bit, WithBank, GetField, HasError, NoOverwrite, StartsOk, AllOk, Follows, EraseTakes, Prepared, PageDone,
           LeftIdle, Steady, EraseRecorded, Target.Synced, BankZero, MemApSelected;
      ghost var d, script, window, taken := Dev(), Script(), Window(), EraseTakes(Dev(), page);
      var words := PageOfSource(page, source);
      acked := true;
      FoolsLater(script, PrepareCount(d, page), BLOCK_COUNT);
      success := PreparePage(page);
      ghost var e := Dev();
      SteadyParts(d, e);
      if success != OK {
        done := PageBegun(d, e, page, words, window, acked);
        return;
      }
      ghost var placed;
      success, acked, placed := WriteBatch(page, words, taken);
      SteadyTransitive(d, e, Dev());
      done := PageEnded(d, e, Dev(), page, words, window, placed, acked, success == OK);
    }

    /** `unlock_flash`. */
    method UnlockFlash() returns (success: Ack)
      requires Connected()
      modifies target`selectValue, target.swd`results, target.swd.programmer
      ensures Kept(old(Window()), old(Zero())) && Flow(old(Zero()), old(Script()), 8, success, Script())
      ensures Dev() == old(Dev()).(lock := Dev().lock)
      ensures success == OK ==>
                Dev().lock == if old(Dev()).lock == Locked || old(Dev()).lock == Unlocked then Unlocked else Jammed
    {
      hide Bit, WithBank, GetField, Flow, HasError;
      ghost var zero, script := Zero(), Script();
      success := target.ApWriteMem(FLASH_KEYR, FLASH_KEY1);
      if success != OK {
        FlowFails(zero, script, 4, 8, success, Script());
        return;
      }
      ghost var middle, now := Script(), Zero();
      success := target.ApWriteMem(FLASH_KEYR, FLASH_KEY2);
      FlowThen(zero, script, 4, OK, middle, now, 4, success, Script());
    }

    /** `lock_flash`. */
    method LockFlash() returns (success: Ack)
      requires Connected()
      modifies target`selectValue, target.swd`results, target.swd.programmer
      ensures Kept(old(Window()), old(Zero())) && Flow(old(Zero()), old(Script()), 8, success, Script())
      ensures Dev() == old(Dev()).(lock := Dev().lock, cr := Dev().cr)
      ensures SelectionOf(Dev().cr) == SelectionOf(old(Dev()).cr)
      ensures Dev().lock == old(Dev()).lock || Dev().lock == Locked
      ensures success == OK ==> Dev().lock == if old(Dev()).lock == Unlocked then Locked else old(Dev()).lock
    {
      hide Bit, WithBank, GetField, Flow, HasError;
      ghost var zero, script := Zero(), Script();
      var control;
      success, control := ReadControl();
      if success != OK {
        FlowFails(zero, script, 4, 8, success, Script());
        return;
      }
      ghost var middle, now := Script(), Zero();
      control := ChangeBit(control, true, CR_LOCK);
      success := WriteControl(control);
      FlowThen(zero, script, 4, OK, middle, now, 4, success, Script());
    }

    /** The end of `write_pages`. */
    method FinishWriting() returns (success: Ack)
      requires Connected()
      modifies target`selectValue, target.swd`results, target.swd.programmer
      ensures Kept(old(Window()), old(Zero()))
      ensures Flow(old(Zero()), old(Script()), 4 * (old(Dev()).busy + 1) + 8, success, Script())
      ensures Follows(old(Dev()), Dev()) && Dev().history == old(Dev()).history
      ensures success == OK ==> Dev().lock == if old(Dev()).lock == Unlocked then Locked else old(Dev()).lock
      ensures SelectionOf(Dev().cr) == SelectionOf(old(Dev()).cr) && Dev().flags == old(Dev()).flags
    {
      hide Bit, WithBank, GetField, Flow, HasError;
      ghost var d, zero, script, count := Dev(), Zero(), Script(), 4 * (Dev().busy + 1);
      success := WaitWhileBusy();
      if success == OK {
        ghost var middle, now := Script(), Zero();
        success := LockFlash();
        FlowThen(zero, script, count, OK, middle, now, 8, success, Script());
      } else {
        FlowFails(zero, script, count, count + 8, success, Script());
      }
      FollowsSelf(d, Dev());
    }

    /** What holds all through `write_pages`, whatever fails. */
    ghost predicate Underway(d0: Device, window: nat, zero: bool, low: nat, high: nat)
      reads target, target.swd, target.swd.programmer
    {
      Kept(window, zero) && Steady(d0, Dev()) && Apart(d0, Dev(), low, high)
    }

    /** The rest of the script keeps `n` more passes from noticing anything. */
    ghost predicate Fooled(page: nat, n: nat, source: seq<Word>)
      reads target.swd.programmer
    {
      Zero() && HidesAll(Script(), Dev(), page, n, source, Window())
    }

    /** One pass of the loop of `write_pages`, as step `m` of the whole call. */
    method WriteNextPage(currentPage: nat, source: seq<Word>, ghost d0: Device, ghost startPage: nat,
                         ghost numPages: nat, ghost m: nat, ghost sofar: bool)
      returns (success: Ack, ghost acked: bool)
      requires Underway(d0, Window(), Zero(), startPage, startPage + numPages)
      requires startPage + numPages <= |d0.flash| <= 256 && PAGE_WORDS * (startPage + numPages) <= |source|
      requires currentPage == startPage + m && m < numPages
      requires Sofar(d0, Dev(), startPage, numPages, source, Window(), m, sofar, true)
      modifies this`operationStatus, target`selectValue, target.swd`results, target.swd.programmer
      ensures Underway(d0, old(Window()), old(Zero()), startPage, startPage + numPages)
      ensures Sofar(d0, Dev(), startPage, numPages, source, old(Window()), m + 1, sofar && acked, success == OK)
      ensures old(Fooled(currentPage, numPages - m, source)) ==>
                success == OK && Fooled(currentPage + 1, numPages - m - 1, source)
      ensures AllOk(old(Script())) ==>
                && acked && AllOk(Script())
                && (AllTake(d0, startPage, numPages, source, old(Window())) ==> success == OK)
      ensures success == OK ==> LeftIdle(acked)
    {
      hide Bit, WithBank, GetField, HasError, StartsOk, AllOk, Follows, Sofar, Apart, PageDone, HidesAll, Fools,
           AllTake, TakesPage, LeftIdle;
      ghost var d, script, window, end := Dev(), Script(), Window(), startPage + numPages;
      ghost var fooled, words := Fooled(currentPage, numPages - m, source), PageOfSource(currentPage, source);
      SteadyParts(d0, d);
      if fooled { HidesFirst(script, d, currentPage, numPages - m, source, window); }
      if AllTake(d0, startPage, numPages, source, window) {
        SofarTakes(d0, d, startPage, numPages, source, window, m, sofar);
      }
      ghost var done;
      success, acked, done := WritePage(currentPage, source);
      SofarNext(d0, d, Dev(), startPage, numPages, source, window, m, sofar, done, acked, success == OK);
      SteadyTransitive(d0, d, Dev());
      ApartNext(d0, d, Dev(), startPage, end, currentPage, words, window, done, acked, success == OK);
      if fooled { HidesRest(script, d, Dev(), currentPage, numPages - m, source, window, done, acked); }
    }

    /** The loop of `write_pages`. */
    method WriteEachPage(startPage: nat, numPages: nat, source: seq<Word>) returns (success: Ack, ghost acked: bool)
      requires Connected() && startPage + numPages <= |Dev().flash| <= 256
      requires PAGE_WORDS * (startPage + numPages) <= |source|
      modifies this`operationStatus, target`selectValue, target.swd`results, target.swd.programmer
      ensures Underway(old(Dev()), old(Window()), old(Zero()), startPage, startPage + numPages)
      ensures Ended(old(Dev()), Dev(), startPage, numPages, source, old(Window()), acked, success == OK)
      ensures old(Fooled(startPage, numPages, source)) ==> success == OK && Script() == []
      ensures AllOk(old(Script())) ==>
                && acked && AllOk(Script())
                && (AllTake(old(Dev()), startPage, numPages, source, old(Window())) ==> success == OK)
      ensures success == OK && numPages > 0 ==> LeftIdle(acked)
    {
      hide Bit, AllOk, AllTake, HasError, Sofar, Apart, HidesAll, Ended, Steady, BankZero, MemApSelected, Target.Synced;
      ghost var d0, window, zero, m, end := Dev(), Window(), Zero(), 0, startPage + numPages;
      ghost var fooled := Fooled(startPage, numPages, source);
      acked := true;
      success := OK;
      var currentPage := startPage;
      SofarStart(d0, startPage, numPages, source, window);
      while success == OK && currentPage < startPage + numPages
        invariant currentPage == startPage + m && m <= numPages && (success == OK || m > 0)
        invariant Underway(d0, window, zero, startPage, end)
        invariant Sofar(d0, Dev(), startPage, numPages, source, window, m, acked, success == OK)
        invariant fooled ==> success == OK && Fooled(currentPage, numPages - m, source)
        invariant AllOk(old(Script())) ==>
                    acked && AllOk(Script()) && (AllTake(d0, startPage, numPages, source, window) ==> success == OK)
        invariant success == OK && m > 0 ==> LeftIdle(acked)
        decreases success == OK, startPage + numPages - currentPage
      {
        ghost var polled;
        success, polled := WriteNextPage(currentPage, source, d0, startPage, numPages, m, acked);
        acked := acked && polled;
        currentPage := currentPage + 1;
        m := m + 1;
      }
      SofarEnds(d0, Dev(), startPage, numPages, source, window, m, acked, success == OK);
      if fooled { HidesNothing(Script(), Dev(), end, source, window); }
    }

    /** All of `write_pages`, as far as the history goes. */
    method UnlockAndWrite(startPage: nat, numPages: nat, source: seq<Word>) returns (success: Ack, ghost acked: bool)
      requires Connected() && startPage + numPages <= |Dev().flash| <= 256
      requires PAGE_WORDS * (startPage + numPages) <= |source|
      modifies this`operationStatus, target`selectValue, target.swd`results, target.swd.programmer
      ensures Kept(old(Window()), old(Zero())) && Follows(old(Dev()), Dev())
      ensures Apart(old(Dev()), Dev(), startPage, startPage + numPages)
      ensures Accomplished(old(Dev()), Dev(), startPage, numPages, source, old(Window()), acked, success == OK)
      ensures old(Zero()) && old(Script()) == FoolingScript(old(Dev()), startPage, numPages, source, old(Window())) ==>
                success == OK
      ensures AllOk(old(Script())) ==>
                (success == OK <==> CanWrite(old(Dev()), startPage, numPages, source, old(Window())))
      ensures success == OK ==>
                Dev().lock == if old(Dev()).lock == Locked || old(Dev()).lock == Unlocked then Locked else Jammed
      ensures success == OK && numPages > 0 ==>
                && (Dev().lock == Locked ==> !Bit(Dev().cr, CR_PG))
                && (acked ==> SR_EOP !in Dev().flags)
    {
      hide Bit, HasError, HidesAll, CanWrite, AllTake, AllOk, Ended, Accomplished, Follows, Apart, BankZero,
           MemApSelected, Target.Synced;
      ghost var d0, window, end := Dev(), Window(), startPage + numPages;
      ghost var fooled := Zero() && Script() == FoolingScript(d0, startPage, numPages, source, window);
      acked := true;
      success := UnlockFlash();
      ghost var d := Dev();
      if success != OK {
        NotUnlocked(d0, d, startPage, numPages, source, window);
        return;
      }
      UnlockedStart(d0, d, startPage, numPages, source, window);
      if fooled { FooledStart(d0, d, Script(), startPage, numPages, source, window); }
      success, acked := WriteEachPage(startPage, numPages, source);
      ghost var e, ok := Dev(), success == OK;
      UnlockedEnd(d0, d, e, startPage, numPages, source, window, acked, ok);
      if success == OK {
        success := FinishWriting();
        StaysAccomplished(d0, e, Dev(), startPage, numPages, source, window, acked, success == OK);
      }
    }

    /** `write_pages`: page `p` gets the words `512 * p` and on of the source.
        What is meant is the whole history: page after page is erased and programmed. It can happen
        only if the controller can be unlocked, shows no error, protects nothing that would be erased,
        and if, in a window shorter than a page, no word goes where one that is not blank went. From
        such a start a success means that it has happened, however the polls were answered, and
        nothing else can happen. From any other start no run does it; a run whose polls were all
        acknowledged fails, but the fooling script makes the call succeed all the same. While every answer
        is good, the call succeeds exactly from the starts that allow it. Pages out of range are never
        touched, unless a mass erase was still selected. */
    method WritePages(startPage: nat, numPages: nat, source: seq<Word>) returns (success: Ack, ghost acked: bool)
      requires Connected() && startPage + numPages <= |Dev().flash| <= 256
      requires PAGE_WORDS * (startPage + numPages) <= |source|
      modifies this`operationStatus, target`selectValue, target.swd`results, target.swd.programmer
      ensures Kept(old(Window()), old(Zero())) && Follows(old(Dev()), Dev())
      ensures var whole := old(Dev()).history
                           + Trace(Bit(old(Dev()).cr, CR_MER), startPage, numPages, source, old(Window()));
        && (Dev().history == whole ==> CanWrite(old(Dev()), startPage, numPages, source, old(Window())))
        && (acked || CanWrite(old(Dev()), startPage, numPages, source, old(Window())) ==>
              Dev().history <= whole && (success == OK ==> Dev().history == whole))
        && (Dev().history == whole ==> Written(old(Dev()), Dev(), startPage, numPages, source, old(Window())))
        && (Dev().history == whole && old(Window()) >= PAGE_BYTES ==>
              forall p | startPage <= p < startPage + numPages :: Dev().flash[p] == PageOfSource(p, source))
      ensures old(Zero()) && old(Script()) == FoolingScript(old(Dev()), startPage, numPages, source, old(Window())) ==>
                success == OK
      ensures AllOk(old(Script())) ==>
                (success == OK <==> CanWrite(old(Dev()), startPage, numPages, source, old(Window())))
      ensures success == OK ==>
                Dev().lock == if old(Dev()).lock == Locked || old(Dev()).lock == Unlocked then Locked else Jammed
      ensures success == OK && numPages > 0 ==>
                && (Dev().lock == Locked ==> !Bit(Dev().cr, CR_PG))
                && (acked ==> SR_EOP !in Dev().flags)
      ensures old(Dev()).lock != Locked && old(Dev()).lock != Unlocked ==> Dev().history == old(Dev()).history
      ensures !Bit(old(Dev()).cr, CR_MER) ==>
                forall p | 0 <= p < |old(Dev()).flash| && !(startPage <= p < startPage + numPages) ::
                  Dev().flash[p] == old(Dev()).flash[p]
    {
      hide Bit, HasError, Trace, Written, CanWrite, AllOk, BankZero, MemApSelected, Target.Synced, Replay, NoOverwrite,
           Apart;
      ghost var d0, window := Dev(), Window();
      success, acked := UnlockAndWrite(startPage, numPages, source);
      ContentsFollow(d0, Dev(), startPage, numPages, source, window);
    }
  }
}
