/** The debug port of the target and its memory access port: registers of ARM IHI 0031 (ADIv5),
    sections B2.2 and C2.2, as far as `serial_wire/target.cc` uses them. */
module DebugPort {
  import opened Bits
  import opened FlashController

  // Register numbers: bits 3 and 2 of the address.
  const DP_ABORT: nat := 0
  const DP_CTRL_STAT: nat := 1
  const DP_SELECT: nat := 2
  const DP_RDBUFF: nat := 3

  // Addresses in the access port.
  const AP_CSW: nat := 0x00
  const AP_TAR: nat := 0x04
  const AP_DRW: nat := 0x0C
  const AP_IDR: nat := 0xFC

  /** `window` is the size in bytes of the region within which TAR counts up before it wraps;
      `rdbuff` is the result of the last access port read. `stuck` is the number of ABORT writes that
      the sticky errors will survive, and `powerDelay` the number of CTRL/STAT reads before a power
      request is acknowledged. */
  datatype Dp = Dp(select: Word, rdbuff: Word, csw: Word, tar: Word, window: nat, idr: Word, dpidr: Word,
                   powerRequested: bool, powerDelay: nat, stuck: nat, device: Device)

  /** The access port register that a transfer addresses: the selected bank and the register number. */
  function ApAddress(dp: Dp, register: nat): nat {
    16 * GetField(dp.select, 4, 4) + 4 * register
  }

  /** The selected access port. */
  function PortOf(dp: Dp): nat {
    GetField(dp.select, 8, 24)
  }

  /** The memory access port is the one with number 0. */
  predicate MemApSelected(dp: Dp) {
    PortOf(dp) == 0
  }

  /** The next word address inside a window, after its end its beginning. */
  function NextAddress(addr: Word, window: nat): (a: Word)
    requires window > 0
  {
    (addr - addr % window + (addr % window + 4) % window) % 0x1_0000_0000
  }

  /** TAR after a data access: counts up if CSW asks for it. */
  function NextTar(dp: Dp): (t: Word)
    requires dp.window > 0
  {
    if GetField(dp.csw, 2, 4) == 1 then NextAddress(dp.tar, dp.window) else dp.tar
  }

  /** What an access port register read finds, and its effect. */
  function ApRegisterRead(dp: Dp, addr: nat): (Word, Dp)
    requires dp.window > 0
  {
    if !MemApSelected(dp) then (0, dp)
    else if addr == AP_CSW then (dp.csw, dp)
    else if addr == AP_TAR then (dp.tar, dp)
    else if addr == AP_DRW then
      var (v, d) := BusRead(dp.device, dp.tar);
      (v, dp.(device := d, tar := NextTar(dp)))
    else if addr == AP_IDR then (dp.idr, dp)
    else (0, dp)
  }

  function ApRegisterWrite(dp: Dp, addr: nat, value: Word): Dp
    requires dp.window > 0
  {
    if !MemApSelected(dp) then dp
    else if addr == AP_CSW then dp.(csw := value)
    else if addr == AP_TAR then dp.(tar := value)
    else if addr == AP_DRW then dp.(device := BusWrite(dp.device, dp.tar, value), tar := NextTar(dp))
    else dp
  }

  // Bits of CTRL/STAT.
  const STICKYERR: nat := 5
  const CDBGPWRUPREQ: nat := 28
  const CDBGPWRUPACK: nat := 29
  const CSYSPWRUPREQ: nat := 30
  const CSYSPWRUPACK: nat := 31

  /** The bits that are set in CTRL/STAT: sticky error, power requests and their acknowledgements. */
  function CtrlFlags(dp: Dp): set<nat> {
    (if dp.stuck > 0 then {STICKYERR} else {})
    + (if dp.powerRequested then {CDBGPWRUPREQ, CSYSPWRUPREQ} else {})
    + (if dp.powerRequested && dp.powerDelay == 0 then {CDBGPWRUPACK, CSYSPWRUPACK} else {})
  }

  function CtrlStat(dp: Dp): (v: Word) {
    FromFlagsBit(CtrlFlags(dp), 0, 32, 0);
    WordWidths();
    FromFlags(CtrlFlags(dp), 0, 32)
  }

  lemma CtrlStatBit(dp: Dp, i: nat)
    ensures Bit(CtrlStat(dp), i) == (i in CtrlFlags(dp))
  {
    hide FromFlags, Bit;
    FromFlagsBit(CtrlFlags(dp), 0, 32, i);
  }

  /** A read transfer. An access port read is posted: it returns the result of the one before. */
  function ReadRegister(dp: Dp, ap: bool, register: nat): (Word, Dp)
    requires dp.window > 0
  {
    if ap then
      var (v, e) := ApRegisterRead(dp, ApAddress(dp, register));
      (dp.rdbuff, e.(rdbuff := v))
    else if register == DP_ABORT then (dp.dpidr, dp)
    else if register == DP_CTRL_STAT then
      (CtrlStat(dp), if dp.powerRequested && dp.powerDelay > 0 then dp.(powerDelay := dp.powerDelay - 1) else dp)
    else if register == DP_SELECT then (dp.rdbuff, dp)
    else (dp.rdbuff, dp)
  }

  function WriteRegister(dp: Dp, ap: bool, register: nat, value: Word): Dp
    requires dp.window > 0
  {
    if ap then ApRegisterWrite(dp, ApAddress(dp, register), value)
    else if register == DP_ABORT then
      if dp.stuck > 0 && Bit(value, 2) then dp.(stuck := dp.stuck - 1) else dp
    else if register == DP_CTRL_STAT then dp.(powerRequested := Bit(value, CDBGPWRUPREQ) && Bit(value, CSYSPWRUPREQ))
    else if register == DP_SELECT then dp.(select := value)
    else dp
  }
}
