/** The stages of erasing and programming a page, as `serial_wire/flash.cc` goes through them: what each
    makes of the controller, and how many transfers it takes. */
module FlashStages {
  import opened Bits
  import opened FlashController
  import opened FlashControl
  import opened MemoryBlocks
  import opened Wire
  import opened SerialWire
  import opened Target

  /** `e` is `d` some status reads later. */
  ghost predicate SameButBusy(d: Device, e: Device) {
    e == d.(busy := e.busy) && e.busy <= d.busy
  }

  /** `e` is `d` with another operation selected; a mass erase can only be deselected. */
  ghost predicate OnlyControl(d: Device, e: Device) {
    e == d.(cr := e.cr) && (Bit(e.cr, CR_MER) ==> Bit(d.cr, CR_MER))
  }

  /** `status` is what the status register of `d` shows. */
  ghost predicate Shows(d: Device, status: Word) {
    && (forall i: nat | i < 10 :: Bit(status, i) == (i in d.flags))
    && Bit(status, SR_BSY) == (d.busy > 0)
  }

  /** The error checks of `write_pages`, in their order. */
  function ReportsError(status: Word): (r: bool)
    ensures r == exists f <- ERROR_FLAGS :: Bit(status, f)
  {
    Bit(status, 1) || Bit(status, 3) || Bit(status, 4) || Bit(status, 5) || Bit(status, 6) || Bit(status, 7)
    || Bit(status, 8) || Bit(status, 9)
  }

  lemma ErrorsShow(d: Device, status: Word)
    requires Shows(d, status)
    ensures ReportsError(status) == HasError(d)
  {
    if HasError(d) {
      var f :| f in d.flags * ERROR_FLAGS;
      assert Bit(status, f);
    }
    if ReportsError(status) {
      var f :| f in ERROR_FLAGS && Bit(status, f);
      assert f in d.flags * ERROR_FLAGS;
    }
  }

  lemma NoStatus()
    ensures !ReportsError(0) && !Bit(0, SR_BSY) && !Bit(0, SR_EOP)
  {
    forall i: nat ensures !Bit(0, i) { ZeroBit(i); }
  }

  // ----- stages of writing a page

  /** The page is erased and the controller is ready to program it. */
  ghost predicate ErasedNow(d: Device, e: Device, page: nat) {
    && page < |e.flash| && e.history == d.history + [EraseEvent(d, page)] && Blank(e.flash[page])
    && !HasError(e) && e.lock == Unlocked && page !in e.protectedPages && !Bit(e.cr, CR_PER) && !Bit(e.cr, CR_MER)
  }

  /** The erase was accepted and has happened. */
  ghost predicate EraseRecorded(d: Device, e: Device, page: nat) {
    && EraseTakes(d, page) && e.history == d.history + [EraseEvent(d, page)]
    && page < |e.flash| && Blank(e.flash[page])
  }

  /** Nothing was recorded, and the controller will not accept anything either. */
  ghost predicate RefusedNow(d: Device, e: Device) {
    e.history == d.history && (HasError(e) || e.lock != Unlocked)
  }

  /** The end of an attempt to erase a page. */
  ghost predicate EraseTried(d: Device, e: Device, page: nat) {
    if EraseTakes(d, page) then ErasedNow(d, e, page) else RefusedNow(d, e)
  }

  // ----- mass erase

  /** The controller accepts a mass erase. */
  ghost predicate MassEraseTakes(d: Device) {
    d.lock == Unlocked && !HasError(d) && d.protectedPages == {}
  }

  ghost predicate AllBlank(flash: seq<Page>) {
    forall p | 0 <= p < |flash| :: Blank(flash[p])
  }

  /** The mass erase was accepted and has happened. */
  ghost predicate MassEraseRecorded(d: Device, e: Device) {
    && MassEraseTakes(d) && e.history == d.history + [MassErased] && AllBlank(e.flash)
    && e.lock == Unlocked && !HasError(e)
  }

  /** The number of transfers of `mass_erase_unlocked` up to the end of the erase. */
  ghost function MassEraseCount(d: Device): nat {
    4 * (d.busy + 1) + 12 + 4 * ((if MassEraseTakes(d) then d.latency else 0) + 1)
  }

  lemma MassEraseStarted(d: Device, control: Word, e: Device)
    requires AfterControl(d, control, e) && d.busy == 0
    requires Bit(control, CR_STRT) && Bit(control, CR_MER) && Bit(control, CR_LOCK) == (d.lock != Unlocked)
    ensures Follows(d, e) && e.lock == d.lock
    ensures if MassEraseTakes(d) then MassEraseRecorded(d, e) && Bit(e.cr, CR_MER) && e.busy == d.latency
            else RefusedNow(d, e) && e.busy == 0
  {
    hide GetField, Bit, Replay;
    AfterControlFollows(d, control, e);
    if d.lock == Unlocked {
      var m := d.(cr := e.cr, lock := Unlocked);
      assert e == StartErase(m) && HasError(m) == HasError(d) by { SameErrors(m, d); }
      EndOfOperationIsNoError(m.flags);
      FailedHasError(m, SR_PGSERR);
      FailedHasError(m, SR_WRPERR);
    }
  }

  // ----- programming a page

  /** The erase of the page would be accepted, and no word of it would find its place taken. */
  ghost predicate TakesPage(d: Device, page: nat, words: seq<Word>, window: nat)
    requires window > 0
  {
    EraseTakes(d, page) && NoOverwrite(words, window)
  }

  /** Ready to program an erased page, or accepting nothing. */
  ghost predicate Prepared(d: Device, page: nat, taken: bool) {
    && page < |d.flash| && d.busy == 0
    && if taken then Accepts(d, page) && Blank(d.flash[page]) else HasError(d) || d.lock != Unlocked
  }

  /** A beginning of a block has been written for a page: `placed` words of it were programmed. */
  ghost predicate Placed(d: Device, e: Device, page: nat, words: seq<Word>, window: nat, taken: bool, placed: nat)
    requires window > 0
  {
    && placed <= |words|
    && e.history == d.history + (if taken then ProgramEvents(page, words[..placed], window) else [])
    && (placed == |words| ==> taken && NoOverwrite(words, window))
  }

  /** A whole page of words has been written. */
  ghost predicate BlockEnded(d: Device, e: Device, words: seq<Word>, window: nat, taken: bool, placed: nat)
    requires window > 0
  {
    && e.busy == (if taken then d.latency else 0)
    && (if taken && NoOverwrite(words, window) then placed == |words| && !HasError(e) else HasError(e))
    && (taken && !NoOverwrite(words, window) ==> SR_PROGERR in e.flags)
  }

  lemma BlockWritten(d: Device, page: nat, words: seq<Word>, written: nat, window: nat, taken: bool)
    returns (placed: nat)
    requires |d.flash| <= 256 && Prepared(d, page, taken) && written <= |words| == PAGE_WORDS && ValidWindow(window)
    ensures var e := WriteBlock(d, PageAddress(page), words[..written], window);
      && Steady(d, e) && Placed(d, e, page, words, window, taken, placed)
      && (written == PAGE_WORDS ==> BlockEnded(d, e, words, window, taken, placed))
  {
    hide GetField, Bit, HasError, NoOverwrite, WriteBlock, Replay;
    var part := words[..written];
    WriteBlockFollows(d, PageAddress(page), part, window);
    if taken {
      BlockAccepted(d, page, part, window);
      placed := Taken(part, window);
      assert part[..placed] == words[..placed];
    } else {
      BlockRefused(d, page, part, window);
      placed := 0;
    }
    if written == PAGE_WORDS { assert part == words; }
  }

  // ----- what every stage keeps

  /** What every stage keeps: the lock does not change, and no mass erase is newly selected. */
  ghost predicate Steady(d: Device, e: Device) {
    Follows(d, e) && e.lock == d.lock && (Bit(e.cr, CR_MER) ==> Bit(d.cr, CR_MER))
  }

  lemma SteadyTransitive(d: Device, e: Device, f: Device)
    requires Steady(d, e) && Steady(e, f)
    ensures Steady(d, f)
  {
    FollowsTransitive(d, e, f);
  }

  lemma SteadyParts(d: Device, e: Device)
    requires Steady(d, e)
    ensures SameParts(d, e) && d.history <= e.history
  {}

  lemma WaitedSteady(d: Device, e: Device)
    requires SameButBusy(d, e)
    ensures Steady(d, e)
  {
    FollowsSelf(d, e);
  }

  lemma OnlyControlSteady(d: Device, e: Device)
    requires OnlyControl(d, e)
    ensures Steady(d, e)
  {
    FollowsSelf(d, e);
  }

  /** A control word without STRT and LOCK only changes the selection. */
  lemma Selected(d: Device, control: Word, e: Device)
    requires AfterControl(d, control, e) && !Bit(control, CR_STRT) && Bit(control, CR_LOCK) == (d.lock != Unlocked)
    requires Bit(control, CR_MER) ==> Bit(d.cr, CR_MER)
    ensures OnlyControl(d, e) && if d.lock == Unlocked then SelectionOf(e.cr) == SelectionOf(control) else e == d
  {}

  /** Starting the erase of a page, on a controller that is not busy. */
  lemma EraseStarted(d: Device, control: Word, e: Device, page: nat)
    requires AfterControl(d, control, e) && d.busy == 0 && page < |d.flash|
    requires Bit(control, CR_STRT) && Bit(control, CR_LOCK) == (d.lock != Unlocked)
    requires SelectionOf(control) == Selection(SelectionOf(control).program, true, Bit(d.cr, CR_MER), page)
    ensures Steady(d, e)
    ensures if EraseTakes(d, page) then
              && e.history == d.history + [EraseEvent(d, page)] && Blank(e.flash[page]) && !HasError(e)
              && e.busy == d.latency
            else RefusedNow(d, e) && e.busy == 0
  {
    hide GetField, Bit, HasError, Replay;
    AfterControlFollows(d, control, e);
    if d.lock == Unlocked {
      var m := d.(cr := e.cr, lock := Unlocked);
      assert e == StartErase(m) && HasError(m) == HasError(d) by { SameErrors(m, d); }
      EraseOutcome(m, page);
    }
  }

  lemma SameErrors(d: Device, e: Device)
    requires d.flags == e.flags
    ensures HasError(d) == HasError(e)
  {}

  lemma EraseOutcome(m: Device, page: nat)
    requires m.busy == 0 && page < |m.flash| && m.lock == Unlocked
    requires Bit(m.cr, CR_PER) && GetField(m.cr, 8, CR_PNB) == page
    ensures var e := StartErase(m);
      if EraseTakes(m, page) then
        && e == Record(m, EraseEvent(m, page)) && Blank(e.flash[page]) && !HasError(e) && e.busy == m.latency
      else e.history == m.history && HasError(e) && e.busy == 0
  {
    EndOfOperationIsNoError(m.flags);
    FailedHasError(m, SR_PGSERR);
    FailedHasError(m, SR_WRPERR);
  }

  /** What the erase of a page leaves: the other pages as they were, exactly if no mass erase was
      selected; blank ones otherwise. */
  lemma EraseContents(d: Device, e: Device, page: nat)
    requires Follows(d, e) && (e.history == d.history || EraseRecorded(d, e, page))
    ensures !Bit(d.cr, CR_MER) ==> forall p | 0 <= p < |d.flash| && p != page :: e.flash[p] == d.flash[p]
    ensures e.history != d.history ==> (e.history == d.history + [Erased(page)] <==> !Bit(d.cr, CR_MER))
    ensures e.history != d.history && Bit(d.cr, CR_MER) ==> AllBlank(e.flash)
  {
    hide Bit, EraseTakes;
    var events := e.history[|d.history|..];
    if e.history == d.history {
      assert events == [];
    } else {
      assert events == [EraseEvent(d, page)] && events[..0] == [];
      assert e.history[|d.history|] == EraseEvent(d, page);
      assert Replay(d.flash, events[..0]) == d.flash;
    }
  }

  lemma TakenMeans(d: Device, page: nat)
    requires EraseTakes(d, page)
    ensures d.lock == Unlocked && !HasError(d) && page !in d.protectedPages
  {}

  lemma NoFlagsNoError(d: Device)
    requires d.flags == {}
    ensures !HasError(d)
  {}

  lemma FewerErrors(d: Device, e: Device)
    ensures e.flags <= d.flags && HasError(e) ==> HasError(d)
  {
    if e.flags <= d.flags && HasError(e) {
      var f :| f in e.flags * ERROR_FLAGS;
      assert f in d.flags * ERROR_FLAGS;
    }
  }

  /** A device that differs in its busy count and in what it selects besides a mass erase takes the
      same erase. */
  lemma SameErase(d: Device, e: Device, page: nat)
    requires e == d.(busy := e.busy, cr := e.cr) && Bit(d.cr, CR_MER) == Bit(e.cr, CR_MER)
    ensures EraseTakes(d, page) == EraseTakes(e, page) && EraseEvent(d, page) == EraseEvent(e, page)
  {}

  // ----- scripts of answers

  /** The number of transfers of `erase_page_unlocked` on a controller that is not busy: an erase that
      is accepted keeps it busy. */
  ghost function IdleEraseCount(d: Device, page: nat): nat {
    4 * (if EraseTakes(d, page) then d.latency else 0) + 24
  }

  ghost function EraseCount(d: Device, page: nat): nat {
    4 * (d.busy + 1) + IdleEraseCount(d, page)
  }

  /** The number of transfers of the first half of a pass of `write_pages`. */
  ghost function PrepareCount(d: Device, page: nat): nat {
    4 * (d.busy + 1) + 4 + IdleEraseCount(d, page) + 8
  }

  /** The number of transfers of a block of a page. */
  const BLOCK_COUNT: nat := PAGE_WORDS + 3

  /** The answers are good but for the poll of the status after `k` transfers, which arrives as a
      garbled zero, and good for the eight after it. */
  ghost predicate Fools(script: seq<Response>, k: nat) {
    && StartsOk(script, k) && GarblesFourth(Drop(script, k)) && Drop(script, k)[3].noise == 0
    && StartsOk(Drop(script, k + 4), 8)
  }

  lemma FoolsLater(script: seq<Response>, a: nat, b: nat)
    ensures Fools(script, a + b) <==> StartsOk(script, a) && Fools(Drop(script, a), b)
    ensures Drop(script, a + b + 12) == Drop(Drop(script, a), b + 12)
  {
    StartsOkThen(script, a, b);
    StartsOkThen(script, a, b + 4);
    StartsOkThen(script, a, b + 12);
  }

  /** A call that has failed will not go on. */
  lemma FlowFails(zero: bool, script: seq<Response>, a: nat, total: nat, r: Ack, left: seq<Response>)
    requires Flow(zero, script, a, r, left) && r != OK && a <= total
    ensures Flow(zero, script, total, r, left)
  {}
}
