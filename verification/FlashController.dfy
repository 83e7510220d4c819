/** The memory bus of the microcontroller being programmed, with its flash controller: a small model
    of what `serial_wire/flash.cc` talks to. The controller keeps a history of what it has erased
    and programmed. */
module FlashController {
  import opened Bits

  // Addresses and bits (`serial_wire/flash.h`, `serial_wire/flash.cc`).
  const FLASH_BASE: Word := 0x0800_0000
  const FLASH_KEYR: Word := 0x4002_2008
  const FLASH_SR: Word := 0x4002_2010
  const FLASH_CR: Word := 0x4002_2014
  const FLASH_KEY1: Word := 0x4567_0123
  const FLASH_KEY2: Word := 0xCDEF_89AB
  const PAGE_BYTES: nat := 0x800
  const PAGE_WORDS: nat := 512
  const BLANK: Word := 0xFFFF_FFFF

  const CR_PG: nat := 0
  const CR_PER: nat := 1
  const CR_MER: nat := 2
  const CR_PNB: nat := 3
  const CR_STRT: nat := 16
  const CR_FSTPG: nat := 18
  const CR_LOCK: nat := 31
  const SR_EOP: nat := 0
  const SR_PROGERR: nat := 3
  const SR_WRPERR: nat := 4
  const SR_PGSERR: nat := 7
  const SR_BSY: nat := 16

  type Page = s: seq<Word> | |s| == PAGE_WORDS witness seq(PAGE_WORDS, _ => BLANK)

  const BLANK_PAGE: Page := seq(PAGE_WORDS, _ => BLANK)

  /** The controller starts locked; a wrong key locks it until reset. */
  datatype Lock = Locked | FirstKeyGiven | Unlocked | Jammed

  datatype Event = Erased(page: nat) | MassErased | Programmed(page: nat, index: nat, value: Word)

  /** `flags` are the error bits and the end-of-operation bit of SR, `busy` the number of further SR
      reads that will report an operation in progress, `cr` the control bits without LOCK and STRT.
      An operation keeps the controller busy for `latency` reads, and reports its end in SR if
      `reportsEnd`. */
  datatype Device = Device(
    flash: seq<Page>, ram: map<nat, Word>, lock: Lock, cr: Word, flags: set<nat>, busy: nat, latency: nat,
    reportsEnd: bool, protectedPages: set<nat>, history: seq<Event>)

  /** The flags that `write_pages` treats as errors. */
  const ERROR_FLAGS: set<nat> := {1, 3, 4, 5, 6, 7, 8, 9}

  predicate HasError(d: Device) {
    d.flags * ERROR_FLAGS != {}
  }

  predicate InFlash(d: Device, addr: nat) {
    FLASH_BASE <= addr < FLASH_BASE + PAGE_BYTES * |d.flash|
  }

  function PageOf(addr: nat): nat
    requires FLASH_BASE <= addr
  {
    (addr - FLASH_BASE) / PAGE_BYTES
  }

  function IndexOf(addr: nat): (i: nat)
    requires FLASH_BASE <= addr
    ensures i < PAGE_WORDS
  {
    ((addr - FLASH_BASE) % PAGE_BYTES) / 4
  }

  // ----- what one event does to the contents

  function Apply(flash: seq<Page>, e: Event): (r: seq<Page>)
    ensures |r| == |flash|
  {
    match e
    case Erased(page) => if page < |flash| then flash[page := BLANK_PAGE] else flash
    case MassErased => seq(|flash|, _ => BLANK_PAGE)
    case Programmed(page, index, value) =>
      if page < |flash| && index < PAGE_WORDS then flash[page := flash[page][index := value]] else flash
  }

  function Replay(flash: seq<Page>, events: seq<Event>): (r: seq<Page>)
    ensures |r| == |flash|
  {
    if events == [] then flash else Apply(Replay(flash, events[..|events| - 1]), events[|events| - 1])
  }

  function Record(d: Device, e: Event): Device {
    d.(flash := Apply(d.flash, e), history := d.history + [e], busy := d.latency,
       flags := if d.reportsEnd then d.flags + {SR_EOP} else d.flags)
  }

  function Fail(d: Device, flag: nat): Device {
    d.(flags := d.flags + {flag})
  }

  // ----- bus accesses

  /** Starting an erase: refused while an earlier error is pending or an operation runs, and on
      protected pages. */
  function StartErase(d: Device): Device {
    if HasError(d) || d.busy > 0 then Fail(d, SR_PGSERR)
    else if Bit(d.cr, CR_MER) then
      if d.protectedPages != {} then Fail(d, SR_WRPERR) else Record(d, MassErased)
    else if Bit(d.cr, CR_PER) then
      var page := GetField(d.cr, 8, CR_PNB);
      if page >= |d.flash| || page in d.protectedPages then Fail(d, SR_WRPERR) else Record(d, Erased(page))
    else d
  }

  /** Programming a word: only with PG set and no erase selected, only on blank unprotected words. */
  function Program(d: Device, page: nat, index: nat, value: Word): Device
    requires page < |d.flash| && index < PAGE_WORDS
  {
    if HasError(d) || d.lock != Unlocked || !Bit(d.cr, CR_PG) || Bit(d.cr, CR_PER) || Bit(d.cr, CR_MER)
    then Fail(d, SR_PGSERR)
    else if page in d.protectedPages then Fail(d, SR_WRPERR)
    else if d.flash[page][index] != BLANK then Fail(d, SR_PROGERR)
    else Record(d, Programmed(page, index, value))
  }

  function GiveKey(lock: Lock, key: Word): Lock {
    match lock
    case Locked => if key == FLASH_KEY1 then FirstKeyGiven else Jammed
    case FirstKeyGiven => if key == FLASH_KEY2 then Unlocked else Jammed
    case Unlocked => Unlocked
    case Jammed => Jammed
  }

  /** The control bits that the register keeps. */
  function KeptControl(value: Word): nat {
    ModifyField(ModifyField(value, 0, 1, CR_STRT), 0, 1, CR_LOCK)
  }

  lemma KeptControlFits(value: Word)
    ensures KeptControl(value) < 0x1_0000_0000
  {
    WordWidths();
    ModifyFieldFits(value, 0, 1, CR_STRT, WORD_BITS);
    ModifyFieldFits(ModifyField(value, 0, 1, CR_STRT), 0, 1, CR_LOCK, WORD_BITS);
  }

  function WriteControl(d: Device, value: Word): Device {
    if d.lock != Unlocked then d
    else
      KeptControlFits(value);
      var e := d.(cr := KeptControl(value), lock := if Bit(value, CR_LOCK) then Locked else Unlocked);
      if Bit(value, CR_STRT) then StartErase(e) else e
  }

  function BusWrite(d: Device, addr: Word, value: Word): Device {
    if addr == FLASH_KEYR then d.(lock := GiveKey(d.lock, value))
    else if addr == FLASH_SR then d.(flags := set f <- d.flags | !Bit(value, f))
    else if addr == FLASH_CR then WriteControl(d, value)
    else if InFlash(d, addr) then Program(d, PageOf(addr), IndexOf(addr), value)
    else d.(ram := d.ram[addr := value])
  }

  /** The number whose bits are the members of a set of bit positions. */
  function FromFlags(flags: set<nat>, low: nat, n: nat): nat
    decreases n
  {
    if n == 0 then 0 else Digit(low in flags) + 2 * FromFlags(flags, low + 1, n - 1)
  }

  lemma {:induction false} FromFlagsBit(flags: set<nat>, low: nat, n: nat, i: nat)
    ensures Bit(FromFlags(flags, low, n), i) == (i < n && low + i in flags)
    ensures FromFlags(flags, low, n) < Pow2(n)
    decreases n
  {
    if n == 0 {
      ZeroBit(i);
    } else {
      FromFlagsBit(flags, low + 1, n - 1, if i == 0 then 0 else i - 1);
      assert FromFlags(flags, low, n) / 2 == FromFlags(flags, low + 1, n - 1);
    }
  }

  /** The status register. */
  function Status(d: Device): (r: Word) {
    var bits := (set f <- d.flags | f < 10) + if d.busy > 0 then {SR_BSY} else {};
    FromFlagsBit(bits, 0, 17, 0);
    WordWidths();
    assert Pow2(17) == 2 * Pow2(16);
    FromFlags(bits, 0, 17)
  }

  lemma StatusBit(d: Device, i: nat)
    ensures Bit(Status(d), i) == if i < 10 then i in d.flags else (i == SR_BSY && d.busy > 0)
  {
    hide FromFlags, Bit;
    FromFlagsBit((set f <- d.flags | f < 10) + if d.busy > 0 then {SR_BSY} else {}, 0, 17, i);
  }

  /** The control register, with the LOCK bit of the moment. */
  function Control(d: Device): (r: Word) {
    WordWidths();
    KeptControlFits(d.cr);
    ModifyFieldFits(KeptControl(d.cr), Digit(d.lock != Unlocked), 1, CR_LOCK, WORD_BITS);
    ModifyField(KeptControl(d.cr), Digit(d.lock != Unlocked), 1, CR_LOCK)
  }

  /** A bus read; reading the status register lets time pass. */
  function BusRead(d: Device, addr: Word): (Word, Device) {
    if addr == FLASH_SR then (Status(d), if d.busy > 0 then d.(busy := d.busy - 1) else d)
    else if addr == FLASH_CR then (Control(d), d)
    else if InFlash(d, addr) then (d.flash[PageOf(addr)][IndexOf(addr)], d)
    else if addr in d.ram then (d.ram[addr], d)
    else (0, d)
  }
}
