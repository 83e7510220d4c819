/** A GPIO port of an STM32 (`hal/gpio/stm_gpio.cc`): sixteen pins whose settings are packed into
    shared registers. The registers are read as sixteen independent pin settings, and every
    operation is shown to change the setting of its own pin and of no other. */
module Gpio {
  import opened Bits

  const NUM_PINS: nat := 16

  type PinNumber = p: nat | p < NUM_PINS

  datatype PinSpeed = LOW | MEDIUM | HIGH | VERY_HIGH

  datatype PinMode =
    | UNUSED
    | ANALOG
    | INPUT_FLOATING
    | INPUT_WITH_PULL_UP
    | INPUT_WITH_PULL_DOWN
    | OUTPUT_PUSH_PULL
    | OUTPUT_PUSH_PULL_WITH_PULL_UP
    | OUTPUT_PUSH_PULL_WITH_PULL_DOWN
    | OUTPUT_OPEN_DRAIN
    | OUTPUT_OPEN_DRAIN_WITH_PULL_UP
    | OUTPUT_OPEN_DRAIN_WITH_PULL_DOWN
    | ALTERNATE_FUNCTION_PUSH_PULL
    | ALTERNATE_FUNCTION_PUSH_PULL_WITH_PULL_UP
    | ALTERNATE_FUNCTION_PUSH_PULL_WITH_PULL_DOWN
    | ALTERNATE_FUNCTION_OPEN_DRAIN
    | ALTERNATE_FUNCTION_OPEN_DRAIN_WITH_PULL_UP
    | ALTERNATE_FUNCTION_OPEN_DRAIN_WITH_PULL_DOWN

  // Values of MODER, OPUPDR and OTYPER.
  const INPUT: nat := 0
  const OUTPUT: nat := 1
  const ALTERNATE_FUNCTION: nat := 2
  const ANALOG_MODE: nat := 3
  const BOTH_DISABLED: nat := 0
  const PULL_UP_ENABLED: nat := 1
  const PULL_DOWN_ENABLED: nat := 2
  const MOSFET_PUSH_PULL: nat := 0
  const MOSFET_OPEN_DRAIN: nat := 1

  // ----- one pin, as a data sheet describes it

  /** The setting of one pin. */
  datatype PinConfig = PinConfig(moder: nat, otyper: nat, ospeed: nat, pull: nat, alternate: nat)

  datatype Call = Call(pin: PinNumber, mode: PinMode, speed: PinSpeed, alternate: nat)

  function SpeedValue(speed: PinSpeed): nat {
    match speed case LOW => 0 case MEDIUM => 1 case HIGH => 2 case VERY_HIGH => 3
  }

  function ModerOf(mode: PinMode): nat {
    match mode
    case UNUSED | ANALOG => ANALOG_MODE
    case INPUT_FLOATING | INPUT_WITH_PULL_UP | INPUT_WITH_PULL_DOWN => INPUT
    case OUTPUT_PUSH_PULL | OUTPUT_PUSH_PULL_WITH_PULL_UP | OUTPUT_PUSH_PULL_WITH_PULL_DOWN
       | OUTPUT_OPEN_DRAIN | OUTPUT_OPEN_DRAIN_WITH_PULL_UP | OUTPUT_OPEN_DRAIN_WITH_PULL_DOWN => OUTPUT
    case _ => ALTERNATE_FUNCTION
  }

  function PullOf(mode: PinMode): nat {
    match mode
    case INPUT_WITH_PULL_UP | OUTPUT_PUSH_PULL_WITH_PULL_UP | OUTPUT_OPEN_DRAIN_WITH_PULL_UP
       | ALTERNATE_FUNCTION_PUSH_PULL_WITH_PULL_UP | ALTERNATE_FUNCTION_OPEN_DRAIN_WITH_PULL_UP => PULL_UP_ENABLED
    case INPUT_WITH_PULL_DOWN | OUTPUT_PUSH_PULL_WITH_PULL_DOWN | OUTPUT_OPEN_DRAIN_WITH_PULL_DOWN
       | ALTERNATE_FUNCTION_PUSH_PULL_WITH_PULL_DOWN | ALTERNATE_FUNCTION_OPEN_DRAIN_WITH_PULL_DOWN => PULL_DOWN_ENABLED
    case _ => BOTH_DISABLED
  }

  predicate OpenDrain(mode: PinMode) {
    match mode
    case OUTPUT_OPEN_DRAIN | OUTPUT_OPEN_DRAIN_WITH_PULL_UP | OUTPUT_OPEN_DRAIN_WITH_PULL_DOWN
       | ALTERNATE_FUNCTION_OPEN_DRAIN | ALTERNATE_FUNCTION_OPEN_DRAIN_WITH_PULL_UP
       | ALTERNATE_FUNCTION_OPEN_DRAIN_WITH_PULL_DOWN => true
    case _ => false
  }

  /** Analog pins and inputs keep their output type and speed. */
  predicate SetsDriver(mode: PinMode) {
    mode == UNUSED || ModerOf(mode) == OUTPUT || ModerOf(mode) == ALTERNATE_FUNCTION
  }

  /** What one call makes of the setting of its pin. */
  function Configured(c: PinConfig, mode: PinMode, speed: PinSpeed, alternate: nat): PinConfig {
    PinConfig(
      ModerOf(mode),
      if SetsDriver(mode) then (if OpenDrain(mode) then MOSFET_OPEN_DRAIN else MOSFET_PUSH_PULL) else c.otyper,
      if SetsDriver(mode) then SpeedValue(speed) else c.ospeed,
      PullOf(mode),
      if ModerOf(mode) == ALTERNATE_FUNCTION then Truncate(alternate, 4) else c.alternate)
  }

  /** The calls, each applied to the setting of its own pin. */
  function ConfiguredAll(c: PinConfig, calls: seq<Call>, pin: PinNumber): PinConfig {
    if calls == [] then c
    else
      var before := ConfiguredAll(c, calls[..|calls| - 1], pin);
      var call := calls[|calls| - 1];
      if call.pin == pin then Configured(before, call.mode, call.speed, call.alternate) else before
  }

  // ----- what the setting of a pin means

  /** What a pin does (RM0394, sections 8.4.1 to 8.4.4). */
  datatype Role =
    | AnalogPin
    | InputPin
    | OutputPin(openDrain: bool)
    | AlternatePin(openDrain: bool, number: nat)

  datatype Pull = NoPull | PullUp | PullDown

  function RoleOf(c: PinConfig): Role {
    if c.moder == 0 then InputPin
    else if c.moder == 1 then OutputPin(c.otyper == 1)
    else if c.moder == 2 then AlternatePin(c.otyper == 1, c.alternate)
    else AnalogPin
  }

  function PullOn(c: PinConfig): Pull {
    if c.pull == 1 then PullUp else if c.pull == 2 then PullDown else NoPull
  }

  predicate Drives(role: Role) {
    role.OutputPin? || role.AlternatePin?
  }

  /** The mode that asks for a role and a pull resistor. */
  function ModeFor(role: Role, pull: Pull): PinMode {
    match (role, pull)
    case (AnalogPin, _) => ANALOG
    case (InputPin, NoPull) => INPUT_FLOATING
    case (InputPin, PullUp) => INPUT_WITH_PULL_UP
    case (InputPin, PullDown) => INPUT_WITH_PULL_DOWN
    case (OutputPin(false), NoPull) => OUTPUT_PUSH_PULL
    case (OutputPin(false), PullUp) => OUTPUT_PUSH_PULL_WITH_PULL_UP
    case (OutputPin(false), PullDown) => OUTPUT_PUSH_PULL_WITH_PULL_DOWN
    case (OutputPin(true), NoPull) => OUTPUT_OPEN_DRAIN
    case (OutputPin(true), PullUp) => OUTPUT_OPEN_DRAIN_WITH_PULL_UP
    case (OutputPin(true), PullDown) => OUTPUT_OPEN_DRAIN_WITH_PULL_DOWN
    case (AlternatePin(false, _), NoPull) => ALTERNATE_FUNCTION_PUSH_PULL
    case (AlternatePin(false, _), PullUp) => ALTERNATE_FUNCTION_PUSH_PULL_WITH_PULL_UP
    case (AlternatePin(false, _), PullDown) => ALTERNATE_FUNCTION_PUSH_PULL_WITH_PULL_DOWN
    case (AlternatePin(true, _), NoPull) => ALTERNATE_FUNCTION_OPEN_DRAIN
    case (AlternatePin(true, _), PullUp) => ALTERNATE_FUNCTION_OPEN_DRAIN_WITH_PULL_UP
    case (AlternatePin(true, _), PullDown) => ALTERNATE_FUNCTION_OPEN_DRAIN_WITH_PULL_DOWN
  }

  /** Asking for a mode gives the pin just the role and the pull resistor that the mode is named after,
      and changes nothing that does not concern it. */
  lemma ModeGivesRole(c: PinConfig, role: Role, pull: Pull, speed: PinSpeed, alternate: nat)
    requires role == AnalogPin ==> pull == NoPull
    requires role.AlternatePin? ==> role.number == alternate < 16
    ensures var r := Configured(c, ModeFor(role, pull), speed, alternate);
      && RoleOf(r) == role && PullOn(r) == pull
      && (if Drives(role) then r.ospeed == SpeedValue(speed) else r.ospeed == c.ospeed && r.otyper == c.otyper)
      && (role.AlternatePin? || r.alternate == c.alternate)
  {
    hide Truncate;
    if role.AlternatePin? {
      assert Pow2(4) == 16;
      TruncateFits(alternate, 4);
    }
  }

  /** Conversely, the mode can be told from what the pin does, but for an unused pin, which is an analog
      one whose driver is reset too. */
  lemma RoleTellsMode(c: PinConfig, mode: PinMode, speed: PinSpeed, alternate: nat)
    ensures var r := Configured(c, mode, speed, alternate);
      && ModeFor(RoleOf(r), PullOn(r)) == (if mode == UNUSED then ANALOG else mode)
      && (mode == UNUSED ==> r == PinConfig(3, 0, SpeedValue(speed), 0, c.alternate))
  {}

  // ----- a register shared by several pins

  /** Where the field of a pin starts in a register that gives `n` bits to each. */
  function FieldOf(n: nat, pin: nat): nat {
    n * pin
  }

  /** A register that gives `n` bits to each of `count` pins stays a word when one is written. */
  lemma PinFieldFits(value: Word, field: nat, n: nat, pin: nat, count: nat)
    requires n * count <= WORD_BITS && pin < count
    ensures FieldOf(n, pin) + n <= WORD_BITS
    ensures ModifyField(value, field, n, FieldOf(n, pin)) < 0x1_0000_0000
  {
    hide ModifyField;
    WordWidths();
    Slot(n, pin, count);
    ModifyFieldFits(value, field, n, FieldOf(n, pin), WORD_BITS);
  }

  lemma FieldAt(value: Word, field: nat, n: nat, written: nat, offset: nat, same: bool)
    requires written + n <= WORD_BITS
    requires if same then offset == written else offset + n <= written || written + n <= offset
    ensures GetField(ModifyField(value, field, n, written), n, offset)
            == if same then Truncate(field, n) else GetField(value, n, offset)
  {
    hide GetField, ModifyField, Truncate;
    WordWidths();
    if same {
      ReadBack(value, field, n, written, WORD_BITS);
    } else {
      OtherFieldKept(value, field, n, written, WORD_BITS, n, offset);
    }
  }

  /** Writing the field of one pin changes what is read for that pin only. */
  lemma PinFieldAt(value: Word, field: nat, n: nat, pin: nat, p: nat)
    requires FieldOf(n, pin) + n <= WORD_BITS
    ensures GetField(ModifyField(value, field, n, FieldOf(n, pin)), n, FieldOf(n, p))
            == if p == pin then Truncate(field, n) else GetField(value, n, FieldOf(n, p))
  {
    hide GetField, ModifyField, Truncate, FieldOf;
    if p < pin { Slot(n, p, pin); } else if pin < p { Slot(n, pin, p); }
    FieldAt(value, field, n, FieldOf(n, pin), FieldOf(n, p), p == pin);
  }

  /** Slots do not overlap. */
  lemma Slot(n: nat, p: nat, q: nat)
    requires p < q
    ensures FieldOf(n, p) + n <= FieldOf(n, q)
  {
    assert n * q == n * p + n * (q - p);
    assert n * (q - p) == n + n * (q - p - 1);
  }

  // ----- the port

  class GpioStm32 {
    var moder: Word
    var otyper: Word
    var ospeedr: Word
    var opupdr: Word
    var odr: Word
    var afrl: Word
    var afrh: Word

    /** The setting of one pin, read out of the packed registers. */
    function Pin(p: PinNumber): PinConfig
      reads this
    {
      PinConfig(GetField(moder, 2, 2 * p), GetField(otyper, 1, p), GetField(ospeedr, 2, 2 * p),
                GetField(opupdr, 2, 2 * p),
                if p < 8 then GetField(afrl, 4, 4 * p) else GetField(afrh, 4, 4 * (p - 8)))
    }

    method SetModer(pin: PinNumber, value: nat)
      requires value < 4
      modifies this`moder
      ensures forall p: PinNumber :: Pin(p) == if p == pin then old(Pin(p)).(moder := value) else old(Pin(p))
    {
      PinFieldFits(moder, value, 2, pin, 16);
      TruncateFits(value, 2);
      moder := ModifyField(moder, value, 2, 2 * pin);
      forall p: PinNumber
        ensures Pin(p) == if p == pin then old(Pin(p)).(moder := value) else old(Pin(p))
      {
        PinFieldAt(old(moder), value, 2, pin, p);
      }
    }

    method SetOtyper(pin: PinNumber, value: nat)
      requires value < 2
      modifies this`otyper
      ensures forall p: PinNumber :: Pin(p) == if p == pin then old(Pin(p)).(otyper := value) else old(Pin(p))
    {
      PinFieldFits(otyper, value, 1, pin, 16);
      TruncateFits(value, 1);
      otyper := ModifyField(otyper, value, 1, pin);
      forall p: PinNumber
        ensures Pin(p) == if p == pin then old(Pin(p)).(otyper := value) else old(Pin(p))
      {
        PinFieldAt(old(otyper), value, 1, pin, p);
      }
    }

    method SetOspeedr(pin: PinNumber, speed: PinSpeed)
      modifies this`ospeedr
      ensures forall p: PinNumber ::
                Pin(p) == if p == pin then old(Pin(p)).(ospeed := SpeedValue(speed)) else old(Pin(p))
    {
      PinFieldFits(ospeedr, SpeedValue(speed), 2, pin, 16);
      TruncateFits(SpeedValue(speed), 2);
      ospeedr := ModifyField(ospeedr, SpeedValue(speed), 2, 2 * pin);
      forall p: PinNumber
        ensures Pin(p) == if p == pin then old(Pin(p)).(ospeed := SpeedValue(speed)) else old(Pin(p))
      {
        PinFieldAt(old(ospeedr), SpeedValue(speed), 2, pin, p);
      }
    }

    method SetPupdr(pin: PinNumber, value: nat)
      requires value < 4
      modifies this`opupdr
      ensures forall p: PinNumber :: Pin(p) == if p == pin then old(Pin(p)).(pull := value) else old(Pin(p))
    {
      PinFieldFits(opupdr, value, 2, pin, 16);
      TruncateFits(value, 2);
      opupdr := ModifyField(opupdr, value, 2, 2 * pin);
      forall p: PinNumber
        ensures Pin(p) == if p == pin then old(Pin(p)).(pull := value) else old(Pin(p))
      {
        PinFieldAt(old(opupdr), value, 2, pin, p);
      }
    }

    /** The mapping has eight bits; only the low four reach the register. */
    method SetAlternateFunction(pin: PinNumber, value: nat)
      modifies this`afrl, this`afrh
      ensures forall p: PinNumber ::
                Pin(p) == if p == pin then old(Pin(p)).(alternate := Truncate(value, 4)) else old(Pin(p))
    {
      if pin < 8 {
        PinFieldFits(afrl, value, 4, pin, 8);
        afrl := ModifyField(afrl, value, 4, 4 * pin);
      } else {
        PinFieldFits(afrh, value, 4, pin - 8, 8);
        afrh := ModifyField(afrh, value, 4, 4 * (pin - 8));
      }
      forall p: PinNumber
        ensures Pin(p) == if p == pin then old(Pin(p)).(alternate := Truncate(value, 4)) else old(Pin(p))
      {
        if pin < 8 && p < 8 { PinFieldAt(old(afrl), value, 4, pin, p); }
        if 8 <= pin && 8 <= p { PinFieldAt(old(afrh), value, 4, pin - 8, p - 8); }
      }
    }

    /** The four settings that `set_pin_mode` makes for every pin with an output driver. */
    method SetDriver(pin: PinNumber, mode: nat, otyper: nat, speed: PinSpeed, pull: nat)
      requires mode < 4 && otyper < 2 && pull < 4
      modifies this`moder, this`otyper, this`ospeedr, this`opupdr
      ensures forall p: PinNumber ::
                Pin(p) == if p == pin then PinConfig(mode, otyper, SpeedValue(speed), pull, old(Pin(p)).alternate)
                          else old(Pin(p))
    {
      SetModer(pin, mode);
      SetOtyper(pin, otyper);
      SetOspeedr(pin, speed);
      SetPupdr(pin, pull);
    }

    /** `set_pin_mode`: the setting of the pin becomes what the mode asks for; no other pin changes. */
    method SetPinMode(pin: PinNumber, mode: PinMode, speed: PinSpeed, alternate: nat)
      modifies this`moder, this`otyper, this`ospeedr, this`opupdr, this`afrl, this`afrh
      ensures forall p: PinNumber ::
                Pin(p) == if p == pin then Configured(old(Pin(p)), mode, speed, alternate) else old(Pin(p))
    {
      hide Pin, GetField;
      match mode
      case UNUSED =>
        SetDriver(pin, ANALOG_MODE, MOSFET_PUSH_PULL, speed, BOTH_DISABLED);
      case ANALOG =>
        SetModer(pin, ANALOG_MODE);
        SetPupdr(pin, BOTH_DISABLED);
      case INPUT_FLOATING =>
        SetModer(pin, INPUT);
        SetPupdr(pin, BOTH_DISABLED);
      case INPUT_WITH_PULL_UP =>
        SetModer(pin, INPUT);
        SetPupdr(pin, PULL_UP_ENABLED);
      case INPUT_WITH_PULL_DOWN =>
        SetModer(pin, INPUT);
        SetPupdr(pin, PULL_DOWN_ENABLED);
      case OUTPUT_PUSH_PULL =>
        SetDriver(pin, OUTPUT, MOSFET_PUSH_PULL, speed, BOTH_DISABLED);
      case OUTPUT_PUSH_PULL_WITH_PULL_UP =>
        SetDriver(pin, OUTPUT, MOSFET_PUSH_PULL, speed, PULL_UP_ENABLED);
      case OUTPUT_PUSH_PULL_WITH_PULL_DOWN =>
        SetDriver(pin, OUTPUT, MOSFET_PUSH_PULL, speed, PULL_DOWN_ENABLED);
      case OUTPUT_OPEN_DRAIN =>
        SetDriver(pin, OUTPUT, MOSFET_OPEN_DRAIN, speed, BOTH_DISABLED);
      case OUTPUT_OPEN_DRAIN_WITH_PULL_UP =>
        SetDriver(pin, OUTPUT, MOSFET_OPEN_DRAIN, speed, PULL_UP_ENABLED);
      case OUTPUT_OPEN_DRAIN_WITH_PULL_DOWN =>
        SetDriver(pin, OUTPUT, MOSFET_OPEN_DRAIN, speed, PULL_DOWN_ENABLED);
      case ALTERNATE_FUNCTION_PUSH_PULL =>
        SetDriver(pin, ALTERNATE_FUNCTION, MOSFET_PUSH_PULL, speed, BOTH_DISABLED);
        SetAlternateFunction(pin, alternate);
      case ALTERNATE_FUNCTION_PUSH_PULL_WITH_PULL_UP =>
        SetDriver(pin, ALTERNATE_FUNCTION, MOSFET_PUSH_PULL, speed, PULL_UP_ENABLED);
        SetAlternateFunction(pin, alternate);
      case ALTERNATE_FUNCTION_PUSH_PULL_WITH_PULL_DOWN =>
        SetDriver(pin, ALTERNATE_FUNCTION, MOSFET_PUSH_PULL, speed, PULL_DOWN_ENABLED);
        SetAlternateFunction(pin, alternate);
      case ALTERNATE_FUNCTION_OPEN_DRAIN =>
        SetDriver(pin, ALTERNATE_FUNCTION, MOSFET_OPEN_DRAIN, speed, BOTH_DISABLED);
        SetAlternateFunction(pin, alternate);
      case ALTERNATE_FUNCTION_OPEN_DRAIN_WITH_PULL_UP =>
        SetDriver(pin, ALTERNATE_FUNCTION, MOSFET_OPEN_DRAIN, speed, PULL_UP_ENABLED);
        SetAlternateFunction(pin, alternate);
      case ALTERNATE_FUNCTION_OPEN_DRAIN_WITH_PULL_DOWN =>
        SetDriver(pin, ALTERNATE_FUNCTION, MOSFET_OPEN_DRAIN, speed, PULL_DOWN_ENABLED);
        SetAlternateFunction(pin, alternate);
    }

    /** Any run of `set_pin_mode` calls: every pin ends with its own calls applied, in order, and
        with nothing from the calls for other pins. */
    method SetPinModes(calls: seq<Call>)
      modifies this`moder, this`otyper, this`ospeedr, this`opupdr, this`afrl, this`afrh
      ensures forall p: PinNumber :: Pin(p) == ConfiguredAll(old(Pin(p)), calls, p)
    {
      for i := 0 to |calls|
        invariant forall p: PinNumber :: Pin(p) == ConfiguredAll(old(Pin(p)), calls[..i], p)
      {
        assert calls[..i + 1][..i] == calls[..i];
        SetPinMode(calls[i].pin, calls[i].mode, calls[i].speed, calls[i].alternate);
      }
      assert calls[..|calls|] == calls;
    }

    /** A write to BSRR, as the port carries it out: the low half sets output bits, the high half
        clears them, and setting wins. */
    method WriteBsrr(value: Word)
      modifies this`odr
      ensures odr == AfterBsrr(old(odr), value)
    {
      AfterBsrrFits(odr, value);
      odr := AfterBsrr(odr, value);
    }

    method WritePin(pin: PinNumber, on: bool)
      modifies this`odr
      ensures forall i: nat :: Bit(odr, i) == if i == pin then on else Bit(old(odr), i)
    {
      OneBitFits(pin);
      forall i: nat ensures Bit(AfterBsrr(odr, if on then Shl(1, pin) else Shl(Shl(1, pin), NUM_PINS)), i)
                            == if i == pin then on else Bit(odr, i)
      {
        WrittenBit(odr, pin, on, i);
      }
      if on {
        WriteBsrr(Shl(1, pin));
      } else {
        WriteBsrr(Shl(Shl(1, pin), NUM_PINS));
      }
    }

    method TogglePin(pin: PinNumber)
      modifies this`odr
      ensures odr == Toggled(old(odr), pin)
    {
      var currentValue := odr;
      ToggleWordFits(currentValue, pin);
      WriteBsrr(ToggleWord(currentValue, pin));
    }
  }

  function AfterBsrr(odr: Word, value: Word): nat {
    Or(And(odr, Not(Truncate(Shr(value, NUM_PINS), NUM_PINS), WORD_BITS)), Truncate(value, NUM_PINS))
  }

  lemma AfterBsrrBit(odr: Word, value: Word, i: nat)
    ensures Bit(AfterBsrr(odr, value), i)
            == ((i < NUM_PINS && Bit(value, i)) || (Bit(odr, i) && !(i < NUM_PINS && Bit(value, i + NUM_PINS))))
  {
    var reset := Truncate(Shr(value, NUM_PINS), NUM_PINS);
    OrBit(And(odr, Not(reset, WORD_BITS)), Truncate(value, NUM_PINS), i);
    AndBit(odr, Not(reset, WORD_BITS), i);
    NotBit(reset, WORD_BITS, i);
    TruncateBit(Shr(value, NUM_PINS), NUM_PINS, i);
    ShrBit(value, NUM_PINS, i);
    TruncateBit(value, NUM_PINS, i);
    if WORD_BITS <= i {
      WordWidths();
      HighBitClear(odr, WORD_BITS, i);
    }
  }

  lemma AfterBsrrFits(odr: Word, value: Word)
    ensures AfterBsrr(odr, value) < 0x1_0000_0000
  {
    WordWidths();
    forall i: nat | WORD_BITS <= i ensures !Bit(AfterBsrr(odr, value), i) {
      AfterBsrrBit(odr, value, i);
      HighBitClear(odr, WORD_BITS, i);
    }
    FitsWhenClear(AfterBsrr(odr, value), WORD_BITS);
  }

  lemma OneBit(pin: nat, i: nat)
    ensures Bit(Shl(1, pin), i) == (i == pin)
  {
    ShlBit(1, pin, i);
    if pin < i { ZeroBit(i - pin - 1); }
  }

  lemma OneBitFits(pin: PinNumber)
    ensures Shl(1, pin) < 0x1_0000_0000 && Shl(Shl(1, pin), NUM_PINS) < 0x1_0000_0000
  {
    WordWidths();
    forall i: nat | WORD_BITS <= i ensures !Bit(Shl(1, pin), i) && !Bit(Shl(Shl(1, pin), NUM_PINS), i) {
      OneBit(pin, i);
      ShlBit(Shl(1, pin), NUM_PINS, i);
      OneBit(pin, i - NUM_PINS);
    }
    FitsWhenClear(Shl(1, pin), WORD_BITS);
    FitsWhenClear(Shl(Shl(1, pin), NUM_PINS), WORD_BITS);
  }

  lemma WrittenBit(odr: Word, pin: PinNumber, on: bool, i: nat)
    requires Shl(1, pin) < 0x1_0000_0000 && Shl(Shl(1, pin), NUM_PINS) < 0x1_0000_0000
    ensures Bit(AfterBsrr(odr, if on then Shl(1, pin) else Shl(Shl(1, pin), NUM_PINS)), i)
            == if i == pin then on else Bit(odr, i)
  {
    AfterBsrrBit(odr, if on then Shl(1, pin) else Shl(Shl(1, pin), NUM_PINS), i);
    OneBit(pin, i);
    OneBit(pin, i + NUM_PINS);
    ShlBit(Shl(1, pin), NUM_PINS, i);
    ShlBit(Shl(1, pin), NUM_PINS, i + NUM_PINS);
  }

  /** The word that `toggle_pin` writes. */
  function ToggleWord(odr: Word, pin: PinNumber): nat {
    Or(Shl(And(odr, Shl(1, pin)), NUM_PINS), And(Not(odr, WORD_BITS), Shl(1, pin)))
  }

  lemma ToggleWordBit(odr: Word, pin: PinNumber, i: nat)
    ensures Bit(ToggleWord(odr, pin), i) == ((i == pin && !Bit(odr, i)) || (i == pin + NUM_PINS && Bit(odr, pin)))
  {
    OrBit(Shl(And(odr, Shl(1, pin)), NUM_PINS), And(Not(odr, WORD_BITS), Shl(1, pin)), i);
    ShlBit(And(odr, Shl(1, pin)), NUM_PINS, i);
    if NUM_PINS <= i {
      AndBit(odr, Shl(1, pin), i - NUM_PINS);
      OneBit(pin, i - NUM_PINS);
    }
    AndBit(Not(odr, WORD_BITS), Shl(1, pin), i);
    NotBit(odr, WORD_BITS, i);
    OneBit(pin, i);
  }

  lemma ToggleWordFits(odr: Word, pin: PinNumber)
    ensures ToggleWord(odr, pin) < 0x1_0000_0000
  {
    WordWidths();
    forall i: nat | WORD_BITS <= i ensures !Bit(ToggleWord(odr, pin), i) {
      ToggleWordBit(odr, pin, i);
    }
    FitsWhenClear(ToggleWord(odr, pin), WORD_BITS);
  }

  function Toggled(odr: Word, pin: PinNumber): (r: Word) {
    ToggleWordFits(odr, pin);
    AfterBsrrFits(odr, ToggleWord(odr, pin));
    AfterBsrr(odr, ToggleWord(odr, pin))
  }

  /** A toggle flips the output bit of its pin and keeps every other bit. */
  lemma ToggledBit(odr: Word, pin: PinNumber, i: nat)
    ensures Bit(Toggled(odr, pin), i) == if i == pin then !Bit(odr, i) else Bit(odr, i)
  {
    ToggleWordFits(odr, pin);
    AfterBsrrBit(odr, ToggleWord(odr, pin), i);
    ToggleWordBit(odr, pin, i);
    ToggleWordBit(odr, pin, i + NUM_PINS);
  }

  /** Toggling twice gives the output register back, whatever it held. */
  lemma ToggleTwice(odr: Word, pin: PinNumber)
    ensures Toggled(Toggled(odr, pin), pin) == odr
  {
    forall i: nat ensures Bit(Toggled(Toggled(odr, pin), pin), i) == Bit(odr, i) {
      ToggledBit(odr, pin, i);
      ToggledBit(Toggled(odr, pin), pin, i);
    }
    SameBits(Toggled(Toggled(odr, pin), pin), odr);
  }
}
