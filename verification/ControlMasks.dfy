/** The masks that `clear_errors` and `power_on` put over CTRL/STAT (`serial_wire/target.cc`): what they
    find is what `Target.ShowsError` and `Target.ShowsPower` say, bit by bit. */
module ControlMasks {
  import opened Bits
  import opened Target

  /** The bits of a word are those of its hexadecimal digits. */
  lemma NextDigit(v: nat, i: nat)
    ensures Bit(v, i + 4) == Bit(v / 16, i)
  {
    ShrBit(v, 4, i);
    SixteenthIsShift(v);
  }

  lemma LowDigit(v: nat)
    ensures Bit(v, 0) == (v % 2 == 1) && Bit(v, 1) == (v / 2 % 2 == 1)
    ensures Bit(v, 2) == (v / 4 % 2 == 1) && Bit(v, 3) == (v / 8 % 2 == 1)
  {
    var h := v / 2;
    var q := h / 2;
    var e := q / 2;
    assert h == v / 2 && q == v / 4 && e == v / 8;
    assert Bit(h, 0) == (h % 2 == 1) && Bit(h, 1) == Bit(q, 0) && Bit(h, 2) == Bit(q, 1) && Bit(q, 1) == Bit(e, 0);
  }

  /** A digit that is zero has no bits, and one that is not is read. */
  lemma DigitOf(v: nat, i: nat)
    ensures i >= 4 ==> Bit(v, i) == Bit(v / 16, i - 4)
    ensures i < 4 ==> Bit(v, i) == (v / (if i == 0 then 1 else if i == 1 then 2 else if i == 2 then 4 else 8) % 2 == 1)
  {
    if i >= 4 { NextDigit(v, i - 4); } else { LowDigit(v); }
  }

  lemma ErrorBits(i: nat)
    ensures Bit(0xB0, i) <==> i == 4 || i == 5 || i == 7
    ensures Bit(0x30, i) <==> i == 4 || i == 5
  {
    hide Bit;
    DigitOf(0xB0, i);
    DigitOf(0x30, i);
    if i >= 4 {
      DigitOf(0xB, i - 4);
      DigitOf(0x3, i - 4);
      if i >= 8 { ZeroBit(i - 8); }
    }
  }

  lemma TopDigit(i: nat)
    ensures Bit(0xA0_0000, i) <==> i == 21 || i == 23
  {
    hide Bit;
    DigitOf(0xA0_0000, i);
    if i >= 4 { DigitOf(0xA_0000, i - 4); }
    if i >= 8 { DigitOf(0xA000, i - 8); }
    if i >= 12 { DigitOf(0xA00, i - 12); }
    if i >= 16 { DigitOf(0xA0, i - 16); }
    if i >= 20 { DigitOf(0xA, i - 20); }
    if i >= 24 { ZeroBit(i - 24); }
  }

  lemma PowerBits(i: nat)
    ensures Bit(0xA000_0030, i) <==> i == 4 || i == 5 || i == 29 || i == 31
    ensures Bit(0xA000_0000, i) <==> i == 29 || i == 31
  {
    hide Bit;
    DigitOf(0xA000_0030, i);
    DigitOf(0xA000_0000, i);
    if i >= 4 {
      DigitOf(0xA00_0003, i - 4);
      DigitOf(0xA00_0000, i - 4);
    }
    if i >= 8 { TopDigit(i - 8); }
  }

  /** A mask with some bits finds nothing exactly where none of them is set. */
  lemma MaskedIsZero(v: nat, mask: nat, bits: set<nat>)
    requires forall i: nat :: Bit(mask, i) <==> i in bits
    ensures And(v, mask) == 0 <==> forall i <- bits :: !Bit(v, i)
  {
    hide And, Bit;
    if exists i <- bits :: Bit(v, i) {
      var i :| i in bits && Bit(v, i);
      AndBit(v, mask, i);
      ZeroBit(i);
    } else {
      forall i: nat ensures Bit(And(v, mask), i) == Bit(0, i) {
        AndBit(v, mask, i);
        ZeroBit(i);
      }
      SameBits(And(v, mask), 0);
    }
  }

  /** The mask for all errors, and the one for those of transfers. */
  lemma ErrorMasks(v: Word)
    ensures And(v, 0xB0) != 0 <==> ShowsError(AllErrors, v)
    ensures And(v, 0x30) != 0 <==> ShowsError(TransferErrors, v)
  {
    hide And, Bit;
    var all, some: set<nat> := {4, 5, 7}, {4, 5};
    forall i: nat ensures Bit(0xB0, i) <==> i in all { ErrorBits(i); }
    forall i: nat ensures Bit(0x30, i) <==> i in some { ErrorBits(i); }
    MaskedIsZero(v, 0xB0, all);
    MaskedIsZero(v, 0x30, some);
    assert 4 in all && 5 in all && 7 in all && 4 in some && 5 in some;
  }

  /** The mask for power and errors. */
  lemma PowerMask(v: Word)
    ensures And(v, 0xA000_0030) == 0xA000_0000 <==> ShowsPower(v)
  {
    hide And, Bit;
    forall i: nat ensures Bit(And(v, 0xA000_0030), i) == (Bit(v, i) && (i == 4 || i == 5 || i == 29 || i == 31)) {
      AndBit(v, 0xA000_0030, i);
      PowerBits(i);
    }
    forall i: nat ensures Bit(0xA000_0000, i) <==> i == 29 || i == 31 { PowerBits(i); }
    if ShowsPower(v) {
      SameBits(And(v, 0xA000_0030), 0xA000_0000);
    } else {
      assert Bit(0xA000_0000, 29) && Bit(0xA000_0000, 31) && !Bit(0xA000_0000, 4) && !Bit(0xA000_0000, 5);
    }
  }
}
