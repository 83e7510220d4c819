/** Bit fields of unsigned words, as `bits/bits.h` computes them: with masks, shifts and the
    bitwise operators, on words of an explicit width. A word is a natural number, and the
    bitwise operators are defined digit by digit. */
module Bits {
  const WORD_BITS: nat := 32

  type Word = x: nat | x < 0x1_0000_0000

  function Pow2(n: nat): (p: nat)
    ensures p > 0
  {
    if n == 0 then 1 else 2 * Pow2(n - 1)
  }

  /** Digit `i` of `v`, least significant first. */
  predicate Bit(v: nat, i: nat) {
    if i == 0 then v % 2 == 1 else Bit(v / 2, i - 1)
  }

  function Digit(b: bool): nat {
    if b then 1 else 0
  }

  function And(a: nat, b: nat): nat {
    if a == 0 || b == 0 then 0 else Digit(a % 2 == 1 && b % 2 == 1) + 2 * And(a / 2, b / 2)
  }

  function Or(a: nat, b: nat): nat
    decreases a + b
  {
    if a == 0 then b else if b == 0 then a else Digit(a % 2 == 1 || b % 2 == 1) + 2 * Or(a / 2, b / 2)
  }

  function Xor(a: nat, b: nat): nat
    decreases a + b
  {
    if a == 0 then b else if b == 0 then a else Digit((a % 2 == 1) != (b % 2 == 1)) + 2 * Xor(a / 2, b / 2)
  }

  /** The low `w` bits of `v`. */
  function Truncate(v: nat, w: nat): nat {
    if w == 0 then 0 else v % 2 + 2 * Truncate(v / 2, w - 1)
  }

  /** The complement within `w` bits. */
  function Not(v: nat, w: nat): nat {
    if w == 0 then 0 else (1 - v % 2) + 2 * Not(v / 2, w - 1)
  }

  function Shl(v: nat, n: nat): nat {
    if n == 0 then v else 2 * Shl(v, n - 1)
  }

  function Shr(v: nat, n: nat): nat {
    if n == 0 then v else Shr(v / 2, n - 1)
  }

  /** `compute_bit_mask`: `n` ones starting at bit `offset`. */
  function Mask(n: nat, offset: nat): nat {
    Shl(Pow2(n) - 1, offset)
  }

  /** `get_bit_field_value`. */
  function GetField(value: nat, n: nat, offset: nat): nat {
    Shr(And(value, Mask(n, offset)), offset)
  }

  /** `modify_bit_field` on a word of `w` bits. */
  function ModifyField(value: nat, field: nat, n: nat, offset: nat, w: nat := WORD_BITS): nat {
    Or(And(Truncate(Shl(field, offset), w), Mask(n, offset)),
       And(value, Not(Mask(n, offset), w)))
  }

  /** `__builtin_parity`: whether the number of ones is odd. */
  predicate Parity(v: nat) {
    if v == 0 then false else (v % 2 == 1) != Parity(v / 2)
  }

  lemma Pow2PlusEight(n: nat)
    ensures Pow2(n + 8) == 256 * Pow2(n)
  {
    assert Pow2(n + 4) == 16 * Pow2(n) by { assert Pow2(n + 2) == 4 * Pow2(n); }
    assert Pow2(n + 8) == 16 * Pow2(n + 4) by { assert Pow2(n + 6) == 4 * Pow2(n + 4); }
  }

  lemma WordWidths()
    ensures Pow2(8) == 0x100 && Pow2(16) == 0x1_0000
    ensures Pow2(32) == 0x1_0000_0000 && Pow2(64) == 0x1_0000_0000_0000_0000
  {
    Pow2PlusEight(0);
    Pow2PlusEight(8);
    Pow2PlusEight(16);
    Pow2PlusEight(24);
    Pow2PlusEight(32);
    Pow2PlusEight(40);
    Pow2PlusEight(48);
    Pow2PlusEight(56);
  }

  // ----- the operators, bit by bit

  lemma {:induction false} ZeroBit(i: nat)
    ensures !Bit(0, i)
  {
    if i > 0 { ZeroBit(i - 1); }
  }

  lemma AndHalves(a: nat, b: nat)
    ensures And(a, b) / 2 == And(a / 2, b / 2)
    ensures And(a, b) % 2 == Digit(a % 2 == 1 && b % 2 == 1)
  {
    var q := And(a / 2, b / 2);
    assert And(a, b) == if a == 0 || b == 0 then 0 else Digit(a % 2 == 1 && b % 2 == 1) + 2 * q;
  }

  lemma OrHalves(a: nat, b: nat)
    ensures Or(a, b) / 2 == Or(a / 2, b / 2)
    ensures Or(a, b) % 2 == Digit(a % 2 == 1 || b % 2 == 1)
  {
    var q := Or(a / 2, b / 2);
    assert a != 0 && b != 0 ==> Or(a, b) == Digit(a % 2 == 1 || b % 2 == 1) + 2 * q;
  }

  lemma XorHalves(a: nat, b: nat)
    ensures Xor(a, b) / 2 == Xor(a / 2, b / 2)
    ensures Xor(a, b) % 2 == Digit((a % 2 == 1) != (b % 2 == 1))
  {
    var q := Xor(a / 2, b / 2);
    assert a != 0 && b != 0 ==> Xor(a, b) == Digit((a % 2 == 1) != (b % 2 == 1)) + 2 * q;
  }

  lemma {:induction false} AndBit(a: nat, b: nat, i: nat)
    ensures Bit(And(a, b), i) == (Bit(a, i) && Bit(b, i))
  {
    AndHalves(a, b);
    if i > 0 { AndBit(a / 2, b / 2, i - 1); }
  }

  lemma {:induction false} OrBit(a: nat, b: nat, i: nat)
    ensures Bit(Or(a, b), i) == (Bit(a, i) || Bit(b, i))
  {
    OrHalves(a, b);
    if i > 0 { OrBit(a / 2, b / 2, i - 1); }
  }

  lemma {:induction false} XorBit(a: nat, b: nat, i: nat)
    ensures Bit(Xor(a, b), i) == (Bit(a, i) != Bit(b, i))
  {
    XorHalves(a, b);
    if i > 0 { XorBit(a / 2, b / 2, i - 1); }
  }

  lemma TruncateHalves(v: nat, w: nat)
    requires w > 0
    ensures Truncate(v, w) / 2 == Truncate(v / 2, w - 1) && Truncate(v, w) % 2 == v % 2
  {
    var q := Truncate(v / 2, w - 1);
    assert Truncate(v, w) == v % 2 + 2 * q;
  }

  lemma {:induction false} TruncateBit(v: nat, w: nat, i: nat)
    ensures Bit(Truncate(v, w), i) == (i < w && Bit(v, i))
  {
    if w == 0 {
      ZeroBit(i);
    } else {
      hide Truncate;
      TruncateHalves(v, w);
      if i > 0 { TruncateBit(v / 2, w - 1, i - 1); }
    }
  }

  lemma NotHalves(v: nat, w: nat)
    requires w > 0
    ensures Not(v, w) / 2 == Not(v / 2, w - 1) && Not(v, w) % 2 == 1 - v % 2
  {
    var q := Not(v / 2, w - 1);
    assert Not(v, w) == (1 - v % 2) + 2 * q;
  }

  lemma {:induction false} NotBit(v: nat, w: nat, i: nat)
    ensures Bit(Not(v, w), i) == (i < w && !Bit(v, i))
  {
    if w == 0 {
      ZeroBit(i);
    } else {
      hide Not;
      NotHalves(v, w);
      if i > 0 { NotBit(v / 2, w - 1, i - 1); }
    }
  }

  lemma {:induction false} ShlBit(v: nat, n: nat, i: nat)
    ensures Bit(Shl(v, n), i) == (n <= i && Bit(v, i - n))
  {
    if n > 0 && i > 0 {
      ShlBit(v, n - 1, i - 1);
    }
  }

  lemma {:induction false} ShrBit(v: nat, n: nat, i: nat)
    ensures Bit(Shr(v, n), i) == Bit(v, i + n)
  {
    if n > 0 { ShrBit(v / 2, n - 1, i); }
  }

  lemma {:induction false} OnesBit(n: nat, i: nat)
    ensures Bit(Pow2(n) - 1, i) == (i < n)
  {
    if n == 0 {
      ZeroBit(i);
    } else if i > 0 {
      OnesBit(n - 1, i - 1);
      assert (Pow2(n) - 1) / 2 == Pow2(n - 1) - 1;
    }
  }

  lemma {:induction false} MaskBit(n: nat, offset: nat, i: nat)
    ensures Bit(Mask(n, offset), i) == (offset <= i < offset + n)
  {
    ShlBit(Pow2(n) - 1, offset, i);
    if offset <= i { OnesBit(n, i - offset); }
  }

  /** A word has no bits at or above its width. */
  lemma {:induction false} HighBitClear(v: nat, w: nat, i: nat)
    requires v < Pow2(w) && w <= i
    ensures !Bit(v, i)
  {
    if w == 0 { ZeroBit(i); } else { HighBitClear(v / 2, w - 1, i - 1); }
  }

  /** A number with no bits at or above `w` fits in `w` bits. */
  lemma {:induction false} FitsWhenClear(v: nat, w: nat)
    requires forall i: nat | w <= i :: !Bit(v, i)
    ensures v < Pow2(w)
    decreases v, w
  {
    if v > 0 {
      if w == 0 {
        forall i: nat ensures !Bit(v / 2, i) { assert !Bit(v, i + 1); }
        assert !Bit(v, 0);
        FitsWhenClear(v / 2, 0);
      } else {
        forall i: nat | w - 1 <= i ensures !Bit(v / 2, i) { assert !Bit(v, i + 1); }
        FitsWhenClear(v / 2, w - 1);
      }
    }
  }

  /** Two numbers with the same bits are the same number. */
  lemma {:induction false} SameBits(a: nat, b: nat)
    requires forall i: nat :: Bit(a, i) == Bit(b, i)
    ensures a == b
    decreases a + b
  {
    if a + b > 0 {
      assert Bit(a, 0) == Bit(b, 0);
      forall i: nat ensures Bit(a / 2, i) == Bit(b / 2, i) { assert Bit(a, i + 1) == Bit(b, i + 1); }
      SameBits(a / 2, b / 2);
    }
  }

  // ----- what the field operations mean

  /** Reading a field moves exactly its bits down to bit 0. */
  lemma GetFieldBit(value: nat, n: nat, offset: nat, i: nat)
    ensures Bit(GetField(value, n, offset), i) == (i < n && Bit(value, offset + i))
  {
    ShrBit(And(value, Mask(n, offset)), offset, i);
    AndBit(value, Mask(n, offset), offset + i);
    MaskBit(n, offset, offset + i);
  }

  /** Writing a field replaces exactly the bits of that field. */
  lemma ModifyFieldBit(value: nat, field: nat, n: nat, offset: nat, w: nat, i: nat)
    requires offset + n <= w && value < Pow2(w)
    ensures Bit(ModifyField(value, field, n, offset, w), i)
            == if offset <= i < offset + n then Bit(field, i - offset) else Bit(value, i)
  {
    var m := Mask(n, offset);
    OrBit(And(Truncate(Shl(field, offset), w), m), And(value, Not(m, w)), i);
    AndBit(Truncate(Shl(field, offset), w), m, i);
    TruncateBit(Shl(field, offset), w, i);
    ShlBit(field, offset, i);
    AndBit(value, Not(m, w), i);
    NotBit(m, w, i);
    MaskBit(n, offset, i);
    if w <= i { HighBitClear(value, w, i); }
  }

  /** Writing a field keeps the word within its width. */
  lemma ModifyFieldFits(value: nat, field: nat, n: nat, offset: nat, w: nat)
    requires offset + n <= w && value < Pow2(w)
    ensures ModifyField(value, field, n, offset, w) < Pow2(w)
  {
    forall i: nat | w <= i ensures !Bit(ModifyField(value, field, n, offset, w), i) {
      ModifyFieldBit(value, field, n, offset, w, i);
      HighBitClear(value, w, i);
    }
    FitsWhenClear(ModifyField(value, field, n, offset, w), w);
  }

  /** A field reads back as what was last written to it, cut to the field's width. */
  lemma ReadBack(value: nat, field: nat, n: nat, offset: nat, w: nat)
    requires offset + n <= w && value < Pow2(w)
    ensures GetField(ModifyField(value, field, n, offset, w), n, offset) == Truncate(field, n)
  {
    var v' := ModifyField(value, field, n, offset, w);
    forall i: nat ensures Bit(GetField(v', n, offset), i) == Bit(Truncate(field, n), i) {
      GetFieldBit(v', n, offset, i);
      ModifyFieldBit(value, field, n, offset, w, offset + i);
      TruncateBit(field, n, i);
    }
    SameBits(GetField(v', n, offset), Truncate(field, n));
  }

  /** Writing one field leaves every disjoint field alone. */
  lemma OtherFieldKept(value: nat, field: nat, n: nat, offset: nat, w: nat, n2: nat, offset2: nat)
    requires offset + n <= w && value < Pow2(w)
    requires offset2 + n2 <= offset || offset + n <= offset2
    ensures GetField(ModifyField(value, field, n, offset, w), n2, offset2) == GetField(value, n2, offset2)
  {
    var v' := ModifyField(value, field, n, offset, w);
    forall i: nat ensures Bit(GetField(v', n2, offset2), i) == Bit(GetField(value, n2, offset2), i) {
      GetFieldBit(v', n2, offset2, i);
      GetFieldBit(value, n2, offset2, i);
      ModifyFieldBit(value, field, n, offset, w, offset2 + i);
    }
    SameBits(GetField(v', n2, offset2), GetField(value, n2, offset2));
  }

  /** Masking and then shifting is the same as shifting and then truncating. */
  lemma GetFieldIsShiftThenTruncate(value: nat, n: nat, offset: nat)
    ensures GetField(value, n, offset) == Truncate(Shr(value, offset), n)
  {
    forall i: nat ensures Bit(GetField(value, n, offset), i) == Bit(Truncate(Shr(value, offset), n), i) {
      GetFieldBit(value, n, offset, i);
      TruncateBit(Shr(value, offset), n, i);
      ShrBit(value, offset, i);
    }
    SameBits(GetField(value, n, offset), Truncate(Shr(value, offset), n));
  }

  /** A word that fits is its own truncation. */
  lemma {:induction false} TruncateFits(v: nat, w: nat)
    requires v < Pow2(w)
    ensures Truncate(v, w) == v
  {
    if w > 0 { TruncateFits(v / 2, w - 1); }
  }
}
