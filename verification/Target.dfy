/** The debug port client (`serial_wire/target.h`, `serial_wire/target.cc`): cached SELECT register,
    posted access port reads, and memory access through TAR and DRW. */
module Target {
  import opened Bits
  import opened FlashController
  import opened DebugPort
  import opened MemoryBlocks
  import opened Wire
  import opened Programmer
  import opened SerialWire

  const CSW_SINGLE: Word := 0x2300_0042
  const CSW_INCREMENT: Word := 0x2300_0052

  // ----- the SELECT register

  /** `select_ap_bank`: the selected access port with the bank of an address. */
  function WithBank(select: Word, addr: nat): (r: Word)
    requires addr < 0x100
    ensures GetField(r, 4, 4) == addr / 16 && GetField(r, 8, 24) == GetField(select, 8, 24)
  {
    WordWidths();
    assert Pow2(4) == 16;
    TruncateFits(addr / 16, 4);
    ReadBack(select, addr / 16, 4, 4, WORD_BITS);
    OtherFieldKept(select, addr / 16, 4, 4, WORD_BITS, 8, 24);
    ModifyFieldFits(select, addr / 16, 4, 4, WORD_BITS);
    ModifyField(select, addr / 16, 4, 4)
  }

  /** `select_ap`: another access port, same bank. */
  function WithAp(select: Word, ap: nat): (r: Word)
    requires ap < 0x100
    ensures GetField(r, 8, 24) == ap && GetField(r, 4, 4) == GetField(select, 4, 4)
  {
    WordWidths();
    TruncateFits(ap, 8);
    ReadBack(select, ap, 8, 24, WORD_BITS);
    OtherFieldKept(select, ap, 8, 24, WORD_BITS, 4, 4);
    ModifyFieldFits(select, ap, 8, 24, WORD_BITS);
    ModifyField(select, ap, 8, 24)
  }

  /** `select_ap` with a bank: SELECT is made anew, with everything else zero. */
  function FullSelect(ap: nat, bank: nat): (r: Word)
    requires ap < 0x100 && bank < 0x100
    ensures GetField(r, 8, 24) == ap && GetField(r, 4, 4) == bank / 16
    ensures forall i: nat | Bit(r, i) :: 24 <= i || 4 <= i < 8
  {
    WordWidths();
    FullSelectFields(ap, bank);
    Or(Shl(ap, 24), And(bank, 0xF0))
  }

  lemma FullSelectFields(ap: nat, bank: nat)
    requires ap < 0x100 && bank < 0x100
    ensures var r := Or(Shl(ap, 24), And(bank, 0xF0));
      && r < Pow2(32) && GetField(r, 8, 24) == ap && GetField(r, 4, 4) == bank / 16
      && forall i: nat | Bit(r, i) :: 24 <= i || 4 <= i < 8
  {
    hide Or, Shl, And, GetField, Bit;
    WordWidths();
    var r := Or(Shl(ap, 24), And(bank, 0xF0));
    BankMask();
    forall i: nat ensures Bit(r, i) == ((24 <= i && Bit(ap, i - 24)) || (4 <= i < 8 && Bit(bank, i))) {
      OrBit(Shl(ap, 24), And(bank, 0xF0), i);
      ShlBit(ap, 24, i);
      AndBit(bank, 0xF0, i);
      MaskBit(4, 4, i);
    }
    forall i: nat | 32 <= i ensures !Bit(r, i) { HighBitClear(ap, 8, i - 24); }
    FitsWhenClear(r, 32);
    forall i: nat ensures Bit(GetField(r, 8, 24), i) == Bit(ap, i) {
      GetFieldBit(r, 8, 24, i);
      if i >= 8 { HighBitClear(ap, 8, i); }
    }
    SameBits(GetField(r, 8, 24), ap);
    forall i: nat ensures Bit(GetField(r, 4, 4), i) == Bit(Shr(bank, 4), i) {
      GetFieldBit(r, 4, 4, i);
      ShrBit(bank, 4, i);
      if i >= 4 { HighBitClear(bank, 8, i + 4); }
    }
    SameBits(GetField(r, 4, 4), Shr(bank, 4));
    SixteenthIsShift(bank);
  }

  lemma BankMask()
    ensures Bits.Mask(4, 4) == 0xF0
  {
    assert Pow2(4) == 16;
    assert Shl(15, 2) == 60 && Shl(15, 4) == 0xF0;
  }

  lemma SixteenthIsShift(v: nat)
    ensures Shr(v, 4) == v / 16
  {
    var h := v / 2;
    var q := h / 2;
    var e := q / 2;
    assert Shr(e, 1) == e / 2 && Shr(q, 2) == Shr(e, 1) && Shr(h, 3) == Shr(q, 2);
  }

  /** The debug port once the bank of an address is selected. */
  function Banked(dp: Dp, addr: nat): (r: Dp)
    requires addr < 0x100
    ensures PortOf(r) == PortOf(dp)
  {
    dp.(select := WithBank(dp.select, addr))
  }

  /** With its bank selected, a transfer reaches the register that the address names. */
  lemma BankedReaches(dp: Dp, addr: nat)
    requires addr < 0x100 && addr % 4 == 0
    ensures ApAddress(Banked(dp, addr), RegisterOf(addr % 16)) == addr
  {
    NibbleAndRegister(addr);
  }

  lemma NibbleAndRegister(addr: nat)
    requires addr % 4 == 0
    ensures 16 * (addr / 16) + 4 * RegisterOf(addr % 16) == addr
  {
    var k := addr / 4;
    Quarter(k);
    assert addr == 4 * k;
  }

  lemma Quarter(k: nat)
    ensures (4 * k) / 16 == k / 4 && (4 * k) % 16 == 4 * (k % 4)
  {
    var q, r := k / 4, k % 4;
    assert 4 * k == 16 * q + 4 * r;
  }

  // ----- memory accesses through TAR and DRW

  lemma AddressIncrement()
    ensures GetField(CSW_SINGLE, 2, 4) == 0 && GetField(CSW_INCREMENT, 2, 4) == 1
  {
    hide GetField, Truncate, Shr;
    IncrementField(CSW_SINGLE, 0x230_0004);
    IncrementField(CSW_INCREMENT, 0x230_0005);
  }

  lemma IncrementField(csw: Word, high: nat)
    requires csw / 16 == high
    ensures GetField(csw, 2, 4) == high % 4
  {
    hide GetField;
    GetFieldIsShiftThenTruncate(csw, 2, 4);
    SixteenthIsShift(csw);
    assert Truncate(high, 2) == high % 2 + 2 * (high / 2 % 2);
  }

  // ----- results of several transfers

  /** `more` are the results of the transfers of one call that returns `r`: all were acknowledged
      but the last, which is what the call returns. */
  ghost predicate StopsAtFailure(more: seq<Ack>, r: Ack) {
    && (forall i | 0 <= i < |more| - 1 :: more[i] == OK)
    && (more == [] ==> r == OK) && (more != [] ==> more[|more| - 1] == r)
  }

  lemma StopsAtFailureJoin(a: seq<Ack>, b: seq<Ack>, r: Ack)
    requires StopsAtFailure(a, OK) && StopsAtFailure(b, r)
    ensures StopsAtFailure(a + b, r)
  {}

  /** What can be said of the transfers of one call, with their results `more`, that returned `r` and
      has left `left` of the script: the first failure ends it, a failure has used up an answer, and
      while the answers are good nothing fails. */
  ghost predicate Went(more: seq<Ack>, script: seq<Response>, left: seq<Response>, r: Ack) {
    && StopsAtFailure(more, r) && |left| <= |script| && (r != OK ==> |left| < |script|)
    && (StartsOk(script, |more|) ==> r == OK && left == Drop(script, |more|))
  }

  lemma WentJoin(a: seq<Ack>, b: seq<Ack>, script: seq<Response>, middle: seq<Response>, left: seq<Response>, r: Ack)
    requires Went(a, script, middle, OK) && Went(b, middle, left, r)
    ensures Went(a + b, script, left, r)
  {
    StopsAtFailureJoin(a, b, r);
    StartsOkThen(script, |a|, |b|);
  }

  /** Three good answers, and then a word that arrives garbled. */
  ghost predicate GarblesFourth(script: seq<Response>) {
    |script| > 3 && StartsOk(script, 3) && script[3].ack == OK && script[3].garbled
  }

  /** A call of `k` transfers succeeds while the answers are good. `zero` tells whether the bank of
      the memory accesses was selected before it: if not, selecting it is one more transfer. */
  ghost predicate Flow(zero: bool, script: seq<Response>, k: nat, r: Ack, left: seq<Response>) {
    && (zero && StartsOk(script, k) ==> r == OK && left == Drop(script, k))
    && (AllOk(script) ==> r == OK && AllOk(left))
  }

  lemma WentFlows(zero: bool, more: seq<Ack>, script: seq<Response>, k: nat, left: seq<Response>, r: Ack)
    requires Went(more, script, left, r) && (zero ==> |more| <= k && (r == OK ==> |more| == k))
    ensures Flow(zero, script, k, r, left)
  {
    if AllOk(script) { AllOkStarts(script, |more|); }
  }

  /** One call after another, if the first one succeeded. */
  lemma FlowThen(zero: bool, script: seq<Response>, a: nat, first: Ack, middle: seq<Response>, now: bool, b: nat,
                 r: Ack, left: seq<Response>)
    requires Flow(zero, script, a, first, middle) && (zero ==> now)
    requires if first == OK then Flow(now, middle, b, r, left) else r == first && left == middle
    ensures Flow(zero, script, a + b, r, left)
  {
    StartsOkThen(script, a, b);
  }

  /** The bank that all memory accesses use is selected. */
  ghost predicate BankZero(dp: Dp) {
    WithBank(dp.select, 0) == dp.select
  }

  // ----- sticky errors and power

  const MAX_CLEAR_RETRIES: nat := 8
  const MAX_POWER_RETRIES: nat := 32

  /** The masks that `clear_errors` (0xB0) and `power_on` (0x30) use to find errors in CTRL/STAT. */
  datatype Mask = AllErrors | TransferErrors

  predicate ShowsError(mask: Mask, v: Word) {
    Bit(v, 4) || Bit(v, 5) || (mask == AllErrors && Bit(v, 7))
  }

  /** What `power_on` waits for: both acknowledgements and no error (mask 0xA0000030). */
  predicate ShowsPower(v: Word) {
    Bit(v, 31) && Bit(v, 29) && !Bit(v, 5) && !Bit(v, 4)
  }

  predicate Powered(dp: Dp) {
    dp.powerRequested && dp.powerDelay == 0 && dp.stuck == 0
  }

  lemma CtrlStatShows(dp: Dp, mask: Mask)
    ensures ShowsError(mask, CtrlStat(dp)) <==> dp.stuck > 0
    ensures ShowsPower(CtrlStat(dp)) <==> Powered(dp)
  {
    CtrlStatBit(dp, 4);
    CtrlStatBit(dp, 5);
    CtrlStatBit(dp, 7);
    CtrlStatBit(dp, 29);
    CtrlStatBit(dp, 31);
  }

  function Minus(a: nat, b: nat): nat {
    if a < b then 0 else a - b
  }

  class Target {
    const swd: SerialWire
    var selectValue: Word

    /** The wire is brought up elsewhere; the cached value starts at zero. */
    constructor (swd: SerialWire)
      ensures this.swd == swd && selectValue == 0
    {
      this.swd := swd;
      selectValue := 0;
    }

    function Dp(): Dp
      reads swd.programmer
    {
      swd.programmer.board.dp
    }

    function Script(): seq<Response>
      reads swd.programmer
    {
      swd.programmer.board.script
    }

    /** The cached SELECT value is the one in the target. */
    ghost predicate Synced()
      reads this, swd, swd.programmer
    {
      swd.Ready() && selectValue == Dp().select
    }

    /** A run of transfers that returned `r` after the results `before` and the script `script`. */
    ghost predicate Ran(before: seq<Ack>, script: seq<Response>, r: Ack)
      reads swd, swd.programmer
    {
      before <= swd.results && Went(swd.results[|before|..], script, Script(), r)
    }

    /** The number of transfers since there were the results `before`. */
    ghost function Transfers(before: seq<Ack>): int
      reads swd
    {
      |swd.results| - |before|
    }

    lemma RanAgain(first: seq<Ack>, second: seq<Ack>, script1: seq<Response>, script2: seq<Response>, r: Ack)
      requires first <= second && Went(second[|first|..], script1, script2, OK)
      requires Ran(second, script2, r)
      ensures Ran(first, script1, r)
    {
      WentJoin(second[|first|..], swd.results[|second|..], script1, script2, Script(), r);
      assert second[|first|..] + swd.results[|second|..] == swd.results[|first|..];
    }

    /** One read transfer. `value` is the caller's variable, which keeps its value when nothing arrives. */
    method ReadOne(ap: bool, addr: nat, value: Word) returns (success: Ack, received: Word)
      requires swd.Ready()
      modifies swd`results, swd.programmer
      ensures swd.Ready() && Ran(old(swd.results), old(Script()), success) && Transfers(old(swd.results)) == 1
      ensures old(Dp()).window > 0
      ensures var (v, e) := ReadRegister(old(Dp()), ap, RegisterOf(addr));
        if success == OK then received == v && Dp() == e else Dp() == old(Dp()) || Dp() == e
      ensures old(Script()) != [] && old(Script())[0].ack == OK && old(Script())[0].garbled ==>
                && success == PARITY_FAIL && received == old(Script())[0].noise && Script() == old(Script())[1..]
                && Dp() == ReadRegister(old(Dp()), ap, RegisterOf(addr)).1
    {
      hide Bits.GetField, Bits.ModifyField, FlashController.BusRead, FlashController.BusWrite;
      FinalAnswerShrinks(Script(), MAX_ATTEMPTS, true);
      success, received := swd.SwdRead(ap, addr, value);
    }

    /** One write transfer. */
    method WriteOne(ap: bool, addr: nat, value: Word) returns (success: Ack)
      requires swd.Ready()
      modifies swd`results, swd.programmer
      ensures swd.Ready() && Ran(old(swd.results), old(Script()), success) && Transfers(old(swd.results)) == 1
      ensures old(Dp()).window > 0
      ensures Dp() == if success == OK then WriteRegister(old(Dp()), ap, RegisterOf(addr), value) else old(Dp())
    {
      hide Bits.GetField, Bits.ModifyField, FlashController.BusRead, FlashController.BusWrite;
      FinalAnswerShrinks(Script(), MAX_ATTEMPTS, true);
      success := swd.SwdWrite(ap, addr, value);
    }

    /** `write_select`: writes SELECT only when its value changes. */
    method WriteSelect(value: Word) returns (success: Ack)
      requires Synced()
      modifies this`selectValue, swd`results, swd.programmer
      ensures Synced() && Ran(old(swd.results), old(Script()), success)
      ensures value == old(selectValue) ==> swd.results == old(swd.results)
      ensures Dp() == if success == OK then old(Dp()).(select := value) else old(Dp())
    {
      hide Bits.GetField, Bits.ModifyField, FlashController.BusRead, FlashController.BusWrite;
      success := OK;
      if value != selectValue {
        success := WriteOne(false, 0x08, value);
        if success == OK { selectValue := value; }
      }
    }

    /** `select_ap_bank`, called with the high nibble of a register address. */
    method SelectApBank(addr: nat) returns (result: Ack)
      requires Synced() && addr < 0x100
      modifies this`selectValue, swd`results, swd.programmer
      ensures Synced() && Ran(old(swd.results), old(Script()), result)
      ensures WithBank(old(selectValue), addr) == old(selectValue) ==> swd.results == old(swd.results)
      ensures Dp() == if result == OK then Banked(old(Dp()), addr) else old(Dp())
    {
      hide Bits.GetField, Bits.ModifyField, FlashController.BusRead, FlashController.BusWrite;
      result := OK;
      var value := WithBank(selectValue, addr);
      if value != selectValue {
        result := WriteSelect(value);
      }
    }

    /** `select_ap`, keeping the bank. */
    method SelectAp(ap: nat) returns (result: Ack)
      requires Synced() && ap < 0x100
      modifies this`selectValue, swd`results, swd.programmer
      ensures Synced() && Ran(old(swd.results), old(Script()), result)
      ensures WithAp(old(selectValue), ap) == old(selectValue) ==> swd.results == old(swd.results)
      ensures Dp() == if result == OK then old(Dp()).(select := WithAp(old(Dp()).select, ap)) else old(Dp())
    {
      hide Bits.GetField, Bits.ModifyField, FlashController.BusRead, FlashController.BusWrite;
      result := OK;
      var value := WithAp(selectValue, ap);
      if value != selectValue {
        result := WriteSelect(value);
      }
    }

    /** `select_ap` with a bank. */
    method SelectApAndBank(ap: nat, bank: nat) returns (result: Ack)
      requires Synced() && ap < 0x100 && bank < 0x100
      modifies this`selectValue, swd`results, swd.programmer
      ensures Synced() && Ran(old(swd.results), old(Script()), result)
      ensures FullSelect(ap, bank) == old(selectValue) ==> swd.results == old(swd.results)
      ensures Dp() == if result == OK then old(Dp()).(select := FullSelect(ap, bank)) else old(Dp())
    {
      hide Bits.GetField, Bits.ModifyField, FlashController.BusRead, FlashController.BusWrite;
      result := OK;
      var value := FullSelect(ap, bank);
      if value != selectValue {
        result := WriteSelect(value);
      }
    }

    /** `ap_write_register`. */
    method ApWriteRegister(addr: nat, value: Word) returns (success: Ack)
      requires Synced() && addr < 0x100 && addr % 4 == 0
      modifies this`selectValue, swd`results, swd.programmer
      ensures Synced() && Ran(old(swd.results), old(Script()), success)
      ensures success == OK ==> Dp() == ApRegisterWrite(Banked(old(Dp()), addr), addr, value)
      ensures success != OK ==> Dp() == old(Dp()) || Dp() == Banked(old(Dp()), addr)
      ensures addr < 16 && BankZero(old(Dp())) ==> BankZero(Dp()) && Transfers(old(swd.results)) == 1
    {
      hide Bits.GetField, Bits.ModifyField, FlashController.BusRead, FlashController.BusWrite;
      success := SelectApBank(addr);
      if success == OK {
        ghost var results, script := swd.results, Script();
        BankedReaches(old(Dp()), addr);
        success := WriteOne(true, addr % 16, value);
        RanAgain(old(swd.results), results, old(Script()), script, success);
      }
    }

    /** `ap_read_register`: returns the result of the access port read before this one. */
    method ApReadRegister(addr: nat, value: Word) returns (success: Ack, received: Word)
      requires Synced() && addr < 0x100 && addr % 4 == 0 && Dp().window > 0
      modifies this`selectValue, swd`results, swd.programmer
      ensures Synced() && Ran(old(swd.results), old(Script()), success)
      ensures var (v, e) := ApRegisterRead(Banked(old(Dp()), addr), addr);
        && (success == OK ==> received == old(Dp()).rdbuff && Dp() == e.(rdbuff := v))
        && (success != OK ==> Dp() == old(Dp()) || Dp() == Banked(old(Dp()), addr) || Dp() == e.(rdbuff := v))
      ensures addr < 16 && BankZero(old(Dp())) ==> BankZero(Dp()) && Transfers(old(swd.results)) == 1
    {
      hide Bits.GetField, Bits.ModifyField, FlashController.BusRead, FlashController.BusWrite;
      received := value;
      success := SelectApBank(addr);
      if success == OK {
        ghost var results, script := swd.results, Script();
        BankedReaches(old(Dp()), addr);
        success, received := ReadOne(true, addr % 16, value);
        RanAgain(old(swd.results), results, old(Script()), script, success);
      }
    }

    /** `read_rdbuff`: the result of the last access port read, without a new one. */
    method ReadRdbuff(value: Word) returns (success: Ack, received: Word)
      requires Synced()
      modifies swd`results, swd.programmer
      ensures Synced() && Ran(old(swd.results), old(Script()), success)
      ensures Dp() == old(Dp()) && (success == OK ==> received == old(Dp()).rdbuff)
      ensures Transfers(old(swd.results)) == 1
      ensures old(Script()) != [] && old(Script())[0].ack == OK && old(Script())[0].garbled ==>
                success == PARITY_FAIL && received == old(Script())[0].noise && Script() == old(Script())[1..]
    {
      hide Bits.GetField, Bits.ModifyField, FlashController.BusRead, FlashController.BusWrite;
      success, received := ReadOne(false, 0x0C, value);
    }

    /** `read_ctrl_stat`. */
    method ReadCtrlStat(value: Word) returns (success: Ack, received: Word)
      requires Synced() && Dp().window > 0
      modifies swd`results, swd.programmer
      ensures Synced() && Ran(old(swd.results), old(Script()), success)
      ensures success == OK ==> (received, Dp()) == ReadRegister(old(Dp()), false, DP_CTRL_STAT)
      ensures success != OK ==> Dp() == old(Dp()) || Dp() == ReadRegister(old(Dp()), false, DP_CTRL_STAT).1
    {
      hide Bits.GetField, Bits.ModifyField, FlashController.BusRead, FlashController.BusWrite, CtrlStat, Went;
      success, received := ReadOne(false, 0x04, value);
    }

    /** `write_abort` and `write_ctrl_stat`. */
    method WriteDpRegister(addr: nat, value: Word) returns (success: Ack)
      requires Synced() && Dp().window > 0 && addr in {0x00, 0x04}
      modifies swd`results, swd.programmer
      ensures Synced() && Ran(old(swd.results), old(Script()), success)
      ensures Dp() == if success == OK then WriteRegister(old(Dp()), false, addr / 4, value) else old(Dp())
    {
      success := WriteOne(false, addr, value);
    }

    /** One round of the loops of `clear_errors` and `power_on`: reads CTRL/STAT, and writes ABORT if
        an error is pending. */
    method ReadAndClear(mask: Mask, value: Word) returns (result: Ack, status: Word)
      requires Synced() && Dp().window > 0
      modifies swd`results, swd.programmer
      ensures Synced() && Ran(old(swd.results), old(Script()), result)
      ensures result == OK ==>
                && ShowsError(mask, status) == (old(Dp()).stuck > 0)
                && ShowsPower(status) == Powered(old(Dp()))
                && Dp() == old(Dp()).(stuck := Minus(old(Dp()).stuck, 1), powerDelay := Dp().powerDelay)
                && Dp().powerDelay == if Dp().powerRequested then Minus(old(Dp()).powerDelay, 1)
                                      else old(Dp()).powerDelay
    {
      hide Bits.GetField, Bits.ModifyField, CtrlStat;
      CtrlStatShows(Dp(), mask);
      result, status := ReadCtrlStat(value);
      if result == OK && ShowsError(mask, status) {
        ghost var results, script := swd.results, Script();
        assert Bit(0x1E, 2);
        result := WriteDpRegister(0x00, 0x1E);
        RanAgain(old(swd.results), results, old(Script()), script, result);
      }
    }

    /** `clear_errors`. With every transfer acknowledged it succeeds exactly if six ABORT writes are
        enough: if the seventh clears the errors, the call has also used up its attempts, and
        reports a failure all the same. */
    method ClearErrors() returns (result: Ack)
      requires Synced() && Dp().window > 0
      modifies swd`results, swd.programmer
      ensures Synced() && old(swd.results) <= swd.results
      ensures old(Script()) == [] ==> StopsAtFailure(swd.results[|old(swd.results)|..], OK)
      ensures var transfers := swd.results[|old(swd.results)|..];
        if StopsAtFailure(transfers, OK) then
          && result == (if old(Dp()).stuck <= 6 then OK else TOO_MANY_ATTEMPTS)
          && Dp().stuck == Minus(old(Dp()).stuck, 8)
        else StopsAtFailure(transfers, result) && result != OK
    {
      hide Bits.GetField, Bits.ModifyField, CtrlStat;
      var ctrlStatusValue: Word := 0;
      var attemptCount := 0;
      result := OK;
      ghost var d := Dp();
      while true
        invariant Synced() && Dp().window > 0 && Ran(old(swd.results), old(Script()), OK) && result == OK
        invariant attemptCount < MAX_CLEAR_RETRIES && attemptCount <= d.stuck
        invariant Dp().stuck == d.stuck - attemptCount
        decreases MAX_CLEAR_RETRIES - attemptCount
      {
        ghost var results, script := swd.results, Script();
        result, ctrlStatusValue := ReadAndClear(AllErrors, ctrlStatusValue);
        RanAgain(old(swd.results), results, old(Script()), script, result);
        if result != OK { return; }
        attemptCount := attemptCount + 1;
        if !(ShowsError(AllErrors, ctrlStatusValue) && attemptCount < MAX_CLEAR_RETRIES) { break; }
      }
      if attemptCount >= MAX_CLEAR_RETRIES { result := TOO_MANY_ATTEMPTS; }
    }

    /** The start of `power_on`: the two request bits. */
    method AskForPower() returns (result: Ack, ctrlStatusValue: Word)
      requires Synced() && Dp().window > 0
      modifies swd`results, swd.programmer
      ensures Synced() && Ran(old(swd.results), old(Script()), result) && Dp().window == old(Dp()).window
      ensures result == OK ==>
                && Dp().powerRequested && Dp().stuck == old(Dp()).stuck
                && Dp().powerDelay == if old(Dp()).powerRequested then Minus(old(Dp()).powerDelay, 1)
                                      else old(Dp()).powerDelay
    {
      hide Bits.GetField, Bits.ModifyField, CtrlStat, Went;
      result, ctrlStatusValue := ReadCtrlStat(0);
      if result != OK { return; }
      ctrlStatusValue := RequestPower(ctrlStatusValue);
      ghost var results, script := swd.results, Script();
      result := WriteDpRegister(0x04, ctrlStatusValue);
      RanAgain(old(swd.results), results, old(Script()), script, result);
    }

    /** `power_on`. With every transfer acknowledged it succeeds exactly if power and errors need at
        most 30 reads of CTRL/STAT to settle: at 31 it gets the acknowledgement and reports a failure. */
    method PowerOn() returns (result: Ack)
      requires Synced() && Dp().window > 0
      modifies swd`results, swd.programmer
      ensures Synced() && old(swd.results) <= swd.results
      ensures old(Script()) == [] ==> StopsAtFailure(swd.results[|old(swd.results)|..], OK)
      ensures var transfers := swd.results[|old(swd.results)|..];
        var delay := if old(Dp()).powerRequested then Minus(old(Dp()).powerDelay, 1) else old(Dp()).powerDelay;
        if StopsAtFailure(transfers, OK) then
          && Dp().powerRequested
          && result == (if delay <= 30 && old(Dp()).stuck <= 30 then OK else TOO_MANY_ATTEMPTS)
          && (delay <= 32 && old(Dp()).stuck <= 32 ==> Powered(Dp()))
        else StopsAtFailure(transfers, result) && result != OK
    {
      hide Bits.GetField, Bits.ModifyField, CtrlStat;
      var ctrlStatusValue;
      result, ctrlStatusValue := AskForPower();
      if result != OK { return; }
      var attemptCount := 0;
      ghost var results, script;
      ghost var d := Dp();
      while true
        invariant Synced() && Dp().window > 0 && Ran(old(swd.results), old(Script()), OK) && result == OK
        invariant attemptCount < MAX_POWER_RETRIES && (attemptCount <= d.stuck || attemptCount <= d.powerDelay)
        invariant Dp().powerRequested && Dp().stuck == Minus(d.stuck, attemptCount)
        invariant Dp().powerDelay == Minus(d.powerDelay, attemptCount)
        decreases MAX_POWER_RETRIES - attemptCount
      {
        results, script := swd.results, Script();
        result, ctrlStatusValue := ReadAndClear(TransferErrors, ctrlStatusValue);
        RanAgain(old(swd.results), results, old(Script()), script, result);
        if result != OK { return; }
        attemptCount := attemptCount + 1;
        if !(!ShowsPower(ctrlStatusValue) && attemptCount < MAX_POWER_RETRIES) { break; }
      }
      if attemptCount >= MAX_POWER_RETRIES { result := TOO_MANY_ATTEMPTS; }
    }

    /** What every memory access leaves alone: which access port is selected, and its window. */
    ghost predicate SamePort(dp: Dp)
      reads swd.programmer
    {
      && PortOf(Dp()) == PortOf(dp) && Dp().window == dp.window
      && (BankZero(dp) ==> BankZero(Dp()))
    }

    /** A memory access of `k` transfers: fewer only if it failed. */
    ghost predicate Took(k: nat, dp: Dp, before: seq<Ack>, success: Ack)
      reads swd
    {
      BankZero(dp) ==> Transfers(before) <= k && (success == OK ==> Transfers(before) == k)
    }

    /** The first two transfers of every memory access. */
    method SetUpAccess(csw: Word, addr: Word) returns (success: Ack)
      requires Synced() && Dp().window > 0
      modifies this`selectValue, swd`results, swd.programmer
      ensures Synced() && Ran(old(swd.results), old(Script()), success)
      ensures SamePort(old(Dp())) && Dp().device == old(Dp()).device && Took(2, old(Dp()), old(swd.results), success)
      ensures success == OK && MemApSelected(old(Dp())) ==> Dp().csw == csw && Dp().tar == addr
    {
      hide Bits.GetField, Bits.ModifyField, FlashController.BusRead, FlashController.BusWrite, Went;
      success := ApWriteRegister(AP_CSW, csw);
      if success == OK {
        ghost var results, script := swd.results, Script();
        success := ApWriteRegister(AP_TAR, addr);
        RanAgain(old(swd.results), results, old(Script()), script, success);
      }
    }

    /** `ap_read_mem` of one word. Through another access port than that of the memory it reads zero. */
    method ApReadMem(addr: Word, value: Word) returns (success: Ack, received: Word)
      requires Synced() && Dp().window > 0
      modifies this`selectValue, swd`results, swd.programmer
      ensures Synced() && SamePort(old(Dp())) && Ran(old(swd.results), old(Script()), success)
      ensures Flow(BankZero(old(Dp())), old(Script()), 4, success, Script())
      ensures success == OK && MemApSelected(old(Dp())) ==> (received, Dp().device) == BusRead(old(Dp()).device, addr)
      ensures success == OK && !MemApSelected(old(Dp())) ==> received == 0
      ensures if MemApSelected(old(Dp()))
              then Dp().device == old(Dp()).device || Dp().device == BusRead(old(Dp()).device, addr).1
              else Dp().device == old(Dp()).device
      ensures BankZero(old(Dp())) && GarblesFourth(old(Script())) ==>
                && success == PARITY_FAIL && received == old(Script())[3].noise
                && Script() == Drop(old(Script()), 4)
                && (MemApSelected(old(Dp())) ==> Dp().device == BusRead(old(Dp()).device, addr).1)
    {
      hide Bits.GetField, Bits.ModifyField, FlashController.BusRead, FlashController.BusWrite, Went;
      received := value;
      success := SetUpAccess(CSW_SINGLE, addr);
      if success == OK {
        ghost var results, script := swd.results, Script();
        var dummy;
        success, dummy := ApReadRegister(AP_DRW, 0);
        RanAgain(old(swd.results), results, old(Script()), script, success);
      }
      WentFlows(BankZero(old(Dp())), swd.results[|old(swd.results)|..], old(Script()), 3, Script(), success);
      if success == OK {
        ghost var results, script := swd.results, Script();
        success, received := ReadRdbuff(value);
        RanAgain(old(swd.results), results, old(Script()), script, success);
      }
      WentFlows(BankZero(old(Dp())), swd.results[|old(swd.results)|..], old(Script()), 4, Script(), success);
    }

    /** `ap_write_mem` of one word; the last transfer reads CSW, which flushes the write. Through another
        access port than that of the memory it writes nothing. */
    method ApWriteMem(addr: Word, value: Word) returns (success: Ack)
      requires Synced() && Dp().window > 0
      modifies this`selectValue, swd`results, swd.programmer
      ensures Synced() && SamePort(old(Dp())) && Ran(old(swd.results), old(Script()), success)
      ensures Flow(BankZero(old(Dp())), old(Script()), 4, success, Script())
      ensures success == OK && MemApSelected(old(Dp())) ==>
                Dp().device == BusWrite(old(Dp()).device, addr, value) && Dp().rdbuff == CSW_SINGLE
      ensures if MemApSelected(old(Dp()))
              then Dp().device == old(Dp()).device || Dp().device == BusWrite(old(Dp()).device, addr, value)
              else Dp().device == old(Dp()).device
    {
      hide Bits.GetField, Bits.ModifyField, FlashController.BusRead, FlashController.BusWrite, Went;
      success := SetUpAccess(CSW_SINGLE, addr);
      if success == OK {
        ghost var results, script := swd.results, Script();
        success := ApWriteRegister(AP_DRW, value);
        RanAgain(old(swd.results), results, old(Script()), script, success);
      }
      if success == OK {
        ghost var results, script := swd.results, Script();
        var dummy;
        success, dummy := ApReadRegister(AP_CSW, 0);
        RanAgain(old(swd.results), results, old(Script()), script, success);
      }
      WentFlows(BankZero(old(Dp())), swd.results[|old(swd.results)|..], old(Script()), 4, Script(), success);
    }

    /** A write of DRW with the address counting up. */
    method WriteNext(value: Word) returns (success: Ack)
      requires Synced() && MemApSelected(Dp()) && Dp().csw == CSW_INCREMENT
      modifies this`selectValue, swd`results, swd.programmer
      ensures Synced() && SamePort(old(Dp())) && Ran(old(swd.results), old(Script()), success)
      ensures Took(1, old(Dp()), old(swd.results), success)
      ensures success != OK ==> Dp().device == old(Dp()).device
      ensures success == OK ==>
                && Dp().device == BusWrite(old(Dp()).device, old(Dp()).tar, value)
                && Dp().csw == CSW_INCREMENT && Dp().tar == NextAddress(old(Dp()).tar, old(Dp()).window)
    {
      hide Bits.GetField, Bits.ModifyField, FlashController.BusRead, FlashController.BusWrite, Went;
      AddressIncrement();
      success := ApWriteRegister(AP_DRW, value);
    }

    /** A read of DRW with the address counting up; `received` is the result of the read before. */
    method ReadNext(value: Word) returns (success: Ack, received: Word)
      requires Synced() && MemApSelected(Dp()) && Dp().csw == CSW_INCREMENT
      modifies this`selectValue, swd`results, swd.programmer
      ensures Synced() && SamePort(old(Dp())) && Ran(old(swd.results), old(Script()), success)
      ensures success != OK ==>
                Dp().device == old(Dp()).device || Dp().device == BusRead(old(Dp()).device, old(Dp()).tar).1
      ensures success == OK ==>
                && received == old(Dp()).rdbuff
                && (Dp().rdbuff, Dp().device) == BusRead(old(Dp()).device, old(Dp()).tar)
                && Dp().csw == CSW_INCREMENT && Dp().tar == NextAddress(old(Dp()).tar, old(Dp()).window)
    {
      hide Bits.GetField, Bits.ModifyField, FlashController.BusRead, FlashController.BusWrite, Went;
      AddressIncrement();
      success, received := ApReadRegister(AP_DRW, value);
    }

    /** The read that makes sure that the writes before it are complete. */
    method Flush() returns (success: Ack)
      requires Synced()
      modifies this`selectValue, swd`results, swd.programmer
      ensures Synced() && SamePort(old(Dp())) && Ran(old(swd.results), old(Script()), success)
      ensures Dp().device == old(Dp()).device && Took(1, old(Dp()), old(swd.results), success)
      ensures success == OK && MemApSelected(old(Dp())) ==> Dp().rdbuff == old(Dp()).csw
    {
      hide Bits.GetField, Bits.ModifyField, FlashController.BusRead, FlashController.BusWrite, Went;
      var dummy;
      success, dummy := ApReadRegister(AP_CSW, 0);
    }

    /** After `n` writes of a block. */
    ghost predicate WritingAt(d: Device, addr: Word, source: seq<Word>, window: nat, n: nat, success: Ack)
      requires window > 0 && n <= |source|
      reads swd.programmer
    {
      && Dp().device == WriteBlock(d, addr, source[..n], window)
      && (success == OK ==> Dp().csw == CSW_INCREMENT && Dp().tar == WordAddress(addr, n, window))
    }

    /** `ap_write_mem` of a block. `written` words have reached the bus, all of them on success, and the
        read of CSW that flushes them has been made. */
    method ApWriteBlock(addr: Word, source: seq<Word>) returns (success: Ack, ghost written: nat)
      requires Synced() && MemApSelected(Dp())
      modifies this`selectValue, swd`results, swd.programmer
      ensures Synced() && SamePort(old(Dp())) && Ran(old(swd.results), old(Script()), success)
      ensures written <= |source| && (success == OK ==> written == |source| && Dp().rdbuff == CSW_INCREMENT)
      ensures Dp().device == WriteBlock(old(Dp()).device, addr, source[..written], old(Dp()).window)
      ensures Flow(BankZero(old(Dp())), old(Script()), |source| + 3, success, Script())
    {
      hide Bits.GetField, Bits.ModifyField, FlashController.BusRead, FlashController.BusWrite, Went;
      ghost var d, window := Dp().device, Dp().window;
      written := 0;
      success := SetUpAccess(CSW_INCREMENT, addr);
      var i := 0;
      while success == OK && i < |source|
        invariant i <= |source| && written <= i && Synced() && SamePort(old(Dp()))
        invariant Ran(old(swd.results), old(Script()), success) && Took(2 + i, old(Dp()), old(swd.results), success)
        invariant WritingAt(d, addr, source, window, written, success) && (success == OK ==> written == i)
        decreases success == OK, |source| - i
      {
        ghost var results, script := swd.results, Script();
        success := WriteNext(source[i]);
        RanAgain(old(swd.results), results, old(Script()), script, success);
        if success == OK {
          WriteBlockMore(d, addr, source, window, i);
          written := i + 1;
        }
        i := i + 1;
      }
      if success == OK {
        ghost var results, script := swd.results, Script();
        success := Flush();
        RanAgain(old(swd.results), results, old(Script()), script, success);
      }
      ghost var n := |source| + 3;
      WentFlows(BankZero(old(Dp())), swd.results[|old(swd.results)|..], old(Script()), n, Script(), success);
    }

    /** After `n` reads of a block, the last of which is waiting in RDBUFF. */
    ghost predicate ReadingAt(d: Device, addr: Word, window: nat, n: nat, success: Ack)
      requires window > 0
      reads swd.programmer
    {
      && Dp().device == AfterReads(d, addr, n, window)
      && (success == OK ==>
            && n > 0 && Dp().csw == CSW_INCREMENT && Dp().tar == WordAddress(addr, n, window)
            && Dp().rdbuff == WordsRead(d, addr, n, window)[n - 1])
    }

    /** The start of a block read, up to the first read of DRW. */
    method StartReading(addr: Word) returns (success: Ack, ghost fetched: nat)
      requires Synced() && MemApSelected(Dp())
      modifies this`selectValue, swd`results, swd.programmer
      ensures Synced() && SamePort(old(Dp())) && Ran(old(swd.results), old(Script()), success)
      ensures fetched <= 1 && (success == OK ==> fetched == 1)
      ensures ReadingAt(old(Dp()).device, addr, old(Dp()).window, fetched, success)
    {
      hide Bits.GetField, Bits.ModifyField, FlashController.BusRead, FlashController.BusWrite, Went;
      ghost var d, window := Dp().device, Dp().window;
      fetched := 0;
      success := SetUpAccess(CSW_INCREMENT, addr);
      if success == OK {
        ghost var results, script := swd.results, Script();
        var dummy;
        success, dummy := ReadNext(0);
        RanAgain(old(swd.results), results, old(Script()), script, success);
        if Dp().device != d || success == OK {
          fetched := 1;
          ReadBlockMore(d, addr, window, 0);
        }
      }
    }

    /** One more read of a block; the word that arrives is the one read before. */
    method KeepReading(value: Word, ghost d: Device, ghost addr: Word, ghost n: nat)
      returns (success: Ack, received: Word, ghost fetched: nat)
      requires Synced() && MemApSelected(Dp()) && ReadingAt(d, addr, Dp().window, n, OK)
      modifies this`selectValue, swd`results, swd.programmer
      ensures Synced() && SamePort(old(Dp())) && Ran(old(swd.results), old(Script()), success)
      ensures n <= fetched <= n + 1 && ReadingAt(d, addr, old(Dp()).window, fetched, success)
      ensures success == OK ==> fetched == n + 1 && received == WordsRead(d, addr, n, old(Dp()).window)[n - 1]
    {
      hide Bits.GetField, Bits.ModifyField, FlashController.BusRead, FlashController.BusWrite, Went;
      ghost var before := Dp().device;
      success, received := ReadNext(value);
      fetched := n;
      if Dp().device != before || success == OK {
        fetched := n + 1;
        ReadBlockMore(d, addr, Dp().window, n);
      }
    }

    /** `destination` holds the first `i` words of the block that is being read. */
    ghost predicate Holds(destination: array<Word>, d: Device, addr: Word, i: nat, window: nat)
      requires window > 0 && i <= destination.Length
      reads destination
    {
      destination[..i] == WordsRead(d, addr, i, window)
    }

    /** One pass of the loop of a block read. */
    method ReadInto(destination: array<Word>, i: nat, ghost d: Device, ghost addr: Word)
      returns (success: Ack, ghost fetched: nat)
      requires Synced() && MemApSelected(Dp()) && i < destination.Length
      requires ReadingAt(d, addr, Dp().window, i + 1, OK) && Holds(destination, d, addr, i, Dp().window)
      modifies this`selectValue, swd`results, swd.programmer, destination
      ensures Synced() && SamePort(old(Dp())) && Ran(old(swd.results), old(Script()), success)
      ensures i + 1 <= fetched <= i + 2 && ReadingAt(d, addr, old(Dp()).window, fetched, success)
      ensures success == OK ==> fetched == i + 2 && Holds(destination, d, addr, i + 1, old(Dp()).window)
      ensures forall k | i < k < destination.Length :: destination[k] == old(destination[k])
    {
      hide Bits.GetField, Bits.ModifyField, FlashController.BusRead, FlashController.BusWrite, Went;
      var word;
      success, word, fetched := KeepReading(destination[i], d, addr, i + 1);
      WordsReadMore(d, addr, i, Dp().window);
      destination[i] := word;
      assert destination[..i] == old(destination[..i]);
    }

    /** The last word of a block read. */
    method ReadLast(destination: array<Word>, size: nat, ghost d: Device, ghost addr: Word) returns (success: Ack)
      requires Synced() && MemApSelected(Dp()) && 0 < size <= destination.Length
      requires ReadingAt(d, addr, Dp().window, size, OK) && Holds(destination, d, addr, size - 1, Dp().window)
      modifies swd`results, swd.programmer, destination
      ensures Synced() && SamePort(old(Dp())) && Ran(old(swd.results), old(Script()), success)
      ensures Dp().device == old(Dp()).device
      ensures success == OK ==> Holds(destination, d, addr, size, old(Dp()).window)
      ensures forall k | size <= k < destination.Length :: destination[k] == old(destination[k])
    {
      hide Bits.GetField, Bits.ModifyField, FlashController.BusRead, FlashController.BusWrite, Went;
      var word;
      success, word := ReadRdbuff(destination[size - 1]);
      WordsReadMore(d, addr, size - 1, Dp().window);
      destination[size - 1] := word;
      assert destination[..size - 1] == old(destination[..size - 1]);
    }

    /** `ap_read_mem` of a block of at least one word: one read ahead to fill the pipeline, then each
        further read returns the word before it, and the last word comes out of RDBUFF. */
    method ApReadBlock(addr: Word, destination: array<Word>, size: nat) returns (success: Ack, ghost fetched: nat)
      requires Synced() && MemApSelected(Dp())
      requires 0 < size <= destination.Length
      modifies this`selectValue, swd`results, swd.programmer, destination
      ensures Synced() && SamePort(old(Dp())) && Ran(old(swd.results), old(Script()), success)
      ensures fetched <= size && Dp().device == AfterReads(old(Dp()).device, addr, fetched, old(Dp()).window)
      ensures success == OK ==> fetched == size && Holds(destination, old(Dp()).device, addr, size, old(Dp()).window)
      ensures forall k | size <= k < destination.Length :: destination[k] == old(destination[k])
    {
      hide Bits.GetField, Bits.ModifyField, FlashController.BusRead, FlashController.BusWrite, Went;
      ghost var d, window := Dp().device, Dp().window;
      success, fetched := StartReading(addr);
      for i := 0 to size - 1
        invariant Synced() && SamePort(old(Dp())) && Ran(old(swd.results), old(Script()), success)
        invariant fetched <= i + 1 && (success == OK ==> fetched == i + 1)
        invariant ReadingAt(d, addr, window, fetched, success)
        invariant success == OK ==> Holds(destination, d, addr, i, window)
        invariant forall k | size <= k < destination.Length :: destination[k] == old(destination[k])
      {
        if success == OK {
          ghost var results, script := swd.results, Script();
          success, fetched := ReadInto(destination, i, d, addr);
          RanAgain(old(swd.results), results, old(Script()), script, success);
        }
      }
      if success == OK {
        ghost var results, script := swd.results, Script();
        assert fetched == size && Dp().window == window;
        success := ReadLast(destination, size, d, addr);
        RanAgain(old(swd.results), results, old(Script()), script, success);
      }
    }
  }

  /** Sets the two power request bits and keeps every other one. */
  method RequestPower(value: Word) returns (r: Word)
    ensures forall i: nat :: Bit(r, i) == (i == 28 || i == 30 || Bit(value, i))
  {
    var half := SetBit(value, 28);
    r := SetBit(half, 30);
  }

  method SetBit(value: Word, k: nat) returns (r: Word)
    requires k < WORD_BITS
    ensures forall i: nat :: Bit(r, i) == (i == k || Bit(value, i))
  {
    hide ModifyField, Bit;
    WordWidths();
    ModifyFieldFits(value, 1, 1, k, WORD_BITS);
    r := ModifyField(value, 1, 1, k);
    forall i: nat ensures Bit(r, i) == (i == k || Bit(value, i)) {
      ModifyFieldBit(value, 1, 1, k, WORD_BITS, i);
      OneBit();
      if i >= WORD_BITS { HighBitClear(value, WORD_BITS, i); }
    }
  }

  lemma OneBit()
    ensures Bit(1, 0)
  {}

  lemma ReadBlockMore(d: Device, addr: Word, window: nat, n: nat)
    requires window > 0
    ensures var (v, e) := BusRead(AfterReads(d, addr, n, window), WordAddress(addr, n, window));
      && AfterReads(d, addr, n + 1, window) == e && WordsRead(d, addr, n + 1, window)[n] == v
      && WordAddress(addr, n + 1, window) == NextAddress(WordAddress(addr, n, window), window)
  {}

  lemma WordsReadMore(d: Device, addr: Word, n: nat, window: nat)
    requires window > 0
    ensures WordsRead(d, addr, n + 1, window) == WordsRead(d, addr, n, window) + [WordsRead(d, addr, n + 1, window)[n]]
  {}
}
