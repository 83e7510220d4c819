/** The integer mixer of `hash/integer_hash.h`, for both of its word widths at once. Each of its
    stages permutes the words of its width, so the hash is a permutation, undone by `Unhash`.

    A rotate-xor round is a polynomial over the two-element field in one variable, rotation by one
    bit, and a xor-shift is one in the shift. Such a polynomial is squared by doubling its
    exponents, so a power-of-two number of repetitions turns every term into a full turn of the
    word (rotations) or shifts it out (shifts). */
module IntegerHash {
  import opened Bits

  // ----- the functions of the source

  /** `rotate<bits>` on words of `w` bits. */
  function Rotate(value: nat, bits: nat, w: nat): nat
    requires 0 < bits < w
  {
    Or(Shr(value, bits), Truncate(Shl(value, w - bits), w))
  }

  /** `value ^= rotate<a>(value) ^ rotate<b>(value)`. */
  function RotateXor(value: nat, a: nat, b: nat, w: nat): nat
    requires 0 < a < w && 0 < b < w
  {
    Xor(value, Xor(Rotate(value, a, w), Rotate(value, b, w)))
  }

  /** `value *= multiplier`, wrapping at `w` bits. */
  function Multiply(value: nat, multiplier: nat, w: nat): nat {
    (value * multiplier) % Pow2(w)
  }

  /** `value ^ (value >> s)`. */
  function XorShift(value: nat, s: nat): nat {
    Xor(value, Shr(value, s))
  }

  /** The constants that tell the two mixers apart, with the inverses of the multipliers. */
  datatype Mixer = Mixer(w: nat, a1: nat, b1: nat, m1: nat, a2: nat, b2: nat, m2: nat, s: nat,
                         inverse1: nat, inverse2: nat)

  const MIXER_64 := Mixer(64, 25, 50, 0xA24BAED4963EE407, 24, 49, 0x9FB21C651E98DF25, 28,
                          0x8B951323F69349B7, 0x02AB9C720D1024AD)
  const MIXER_32 := Mixer(32, 12, 24, 0x963EE407, 11, 23, 0x1E98DF25, 14, 0xF69349B7, 0x0D1024AD)

  /** What the proofs need of the constants. */
  ghost predicate Invertible(c: Mixer) {
    && (c.w == Pow2(5) || c.w == Pow2(6))
    && 0 < c.a1 < c.w && 0 < c.b1 < c.w && 0 < c.a2 < c.w && 0 < c.b2 < c.w
    && (c.m1 * c.inverse1) % Pow2(c.w) == 1 && (c.m2 * c.inverse2) % Pow2(c.w) == 1
    && c.w <= 4 * c.s
  }

  lemma MixersInvertible()
    ensures Invertible(MIXER_64) && Invertible(MIXER_32)
  {
    assert Pow2(5) == 32 && Pow2(6) == 64;
    WordWidths();
  }

  /** `integer_hash_64` and `integer_hash_32`. */
  function Hash(c: Mixer, value: nat): nat
    requires 0 < c.a1 < c.w && 0 < c.b1 < c.w && 0 < c.a2 < c.w && 0 < c.b2 < c.w
  {
    var v1 := RotateXor(value, c.a1, c.b1, c.w);
    var v2 := Multiply(v1, c.m1, c.w);
    var v3 := RotateXor(v2, c.a2, c.b2, c.w);
    var v4 := Multiply(v3, c.m2, c.w);
    XorShift(v4, c.s)
  }

  // ----- rotations, bit by bit

  /** `i` modulo `w`. */
  function Wrap(i: nat, w: nat): (k: nat)
    requires w > 0
    ensures k < w
  {
    if i < w then i else Wrap(i - w, w)
  }

  lemma {:induction false} WrapInside(x: nat, n: nat, w: nat)
    requires w > 0
    ensures Wrap(Wrap(x, w) + n, w) == Wrap(x + n, w)
  {
    if w <= x { WrapInside(x - w, n, w); }
  }

  lemma {:induction false} WrapFullTurns(x: nat, q: nat, w: nat)
    requires w > 0
    ensures Wrap(x + w * q, w) == Wrap(x, w)
  {
    if q > 0 {
      assert x + w * q == (x + w * (q - 1)) + w;
      WrapFullTurns(x, q - 1, w);
    }
  }

  /** A rotation moves bit `i + bits`, wrapped, to bit `i`. */
  lemma RotateBit(v: nat, bits: nat, w: nat, i: nat)
    requires 0 < bits < w && v < Pow2(w)
    ensures Bit(Rotate(v, bits, w), i) == (i < w && Bit(v, Wrap(i + bits, w)))
  {
    OrBit(Shr(v, bits), Truncate(Shl(v, w - bits), w), i);
    ShrBit(v, bits, i);
    TruncateBit(Shl(v, w - bits), w, i);
    ShlBit(v, w - bits, i);
    if w <= i + bits { HighBitClear(v, w, i + bits); }
  }

  /** `r` is `v` after a round whose rotations are `a` and `b`, of any size. */
  ghost predicate IsRound(v: nat, a: nat, b: nat, w: nat, r: nat)
    requires w > 0
  {
    && r < Pow2(w)
    && forall i: nat | i < w :: RoundAt(v, a, b, w, r, i)
  }

  ghost predicate RoundAt(v: nat, a: nat, b: nat, w: nat, r: nat, i: nat)
    requires w > 0
  {
    Bit(r, i) == (Bit(v, i) != (Bit(v, Wrap(i + a, w)) != Bit(v, Wrap(i + b, w))))
  }

  lemma RotateXorIsRound(v: nat, a: nat, b: nat, w: nat)
    requires 0 < a < w && 0 < b < w && v < Pow2(w)
    ensures IsRound(v, a, b, w, RotateXor(v, a, b, w))
  {
    var r := RotateXor(v, a, b, w);
    forall i: nat ensures w <= i ==> !Bit(r, i) ensures i < w ==> RoundAt(v, a, b, w, r, i) {
      XorBit(v, Xor(Rotate(v, a, w), Rotate(v, b, w)), i);
      XorBit(Rotate(v, a, w), Rotate(v, b, w), i);
      RotateBit(v, a, w, i);
      RotateBit(v, b, w, i);
      if w <= i { HighBitClear(v, w, i); }
    }
    FitsWhenClear(r, w);
  }

  /** Two rounds are one round with both rotations doubled. */
  lemma RoundSquared(v: nat, a: nat, b: nat, w: nat, r: nat, rr: nat)
    requires w > 0 && IsRound(v, a, b, w, r) && IsRound(r, a, b, w, rr)
    ensures IsRound(v, 2 * a, 2 * b, w, rr)
  {
    forall i: nat | i < w ensures RoundAt(v, 2 * a, 2 * b, w, rr, i) {
      RoundSquaredAt(v, a, b, w, r, rr, i);
    }
  }

  /** A round, read at a bit that is itself reached by a rotation. */
  lemma RoundAtTurned(v: nat, a: nat, b: nat, w: nat, r: nat, x: nat)
    requires w > 0 && IsRound(v, a, b, w, r)
    ensures Bit(r, Wrap(x, w)) == (Bit(v, Wrap(x, w)) != (Bit(v, Wrap(x + a, w)) != Bit(v, Wrap(x + b, w))))
  {
    assert RoundAt(v, a, b, w, r, Wrap(x, w));
    WrapInside(x, a, w);
    WrapInside(x, b, w);
  }

  lemma RoundSquaredAt(v: nat, a: nat, b: nat, w: nat, r: nat, rr: nat, i: nat)
    requires i < w && IsRound(v, a, b, w, r) && IsRound(r, a, b, w, rr)
    ensures RoundAt(v, 2 * a, 2 * b, w, rr, i)
  {
    RoundAtTurned(r, a, b, w, rr, i);
    RoundAtTurned(v, a, b, w, r, i);
    RoundAtTurned(v, a, b, w, r, i + a);
    RoundAtTurned(v, a, b, w, r, i + b);
    assert i + a + a == i + 2 * a && i + b + b == i + 2 * b && i + a + b == i + b + a;
  }

  /** A round whose rotations are whole turns changes nothing. */
  lemma FullTurnRound(v: nat, a: nat, b: nat, w: nat, r: nat)
    requires w > 0 && v < Pow2(w) && IsRound(v, w * a, w * b, w, r)
    ensures r == v
  {
    forall i: nat ensures Bit(r, i) == Bit(v, i) {
      if i < w {
        WrapFullTurns(i, a, w);
        WrapFullTurns(i, b, w);
        assert RoundAt(v, w * a, w * b, w, r, i);
      } else {
        HighBitClear(r, w, i);
        HighBitClear(v, w, i);
      }
    }
    SameBits(r, v);
  }

  function Iterate(f: nat -> nat, n: nat, v: nat): nat {
    if n == 0 then v else f(Iterate(f, n - 1, v))
  }

  lemma {:induction false} IterateAdd(f: nat -> nat, m: nat, n: nat, v: nat)
    ensures Iterate(f, m + n, v) == Iterate(f, m, Iterate(f, n, v))
  {
    if m > 0 { IterateAdd(f, m - 1, n, v); }
  }

  /** `f` is a round with rotations `a` and `b`. */
  ghost predicate ActsAsRound(f: nat -> nat, a: nat, b: nat, w: nat)
    requires w > 0
  {
    forall v: nat | v < Pow2(w) :: IsRound(v, a, b, w, f(v))
  }

  /** `2^k` rounds are one round with both rotations multiplied by `2^k`. */
  lemma {:induction false} RoundPower(f: nat -> nat, v: nat, a: nat, b: nat, w: nat, k: nat)
    requires w > 0 && ActsAsRound(f, a, b, w) && v < Pow2(w)
    ensures IsRound(v, Pow2(k) * a, Pow2(k) * b, w, Iterate(f, Pow2(k), v))
    decreases k
  {
    hide RoundAt;
    if k == 0 {
      assert Iterate(f, 1, v) == f(Iterate(f, 0, v));
    } else {
      var h := Pow2(k - 1);
      var r := Iterate(f, h, v);
      IterateAdd(f, h, h, v);
      RoundPower(f, v, a, b, w, k - 1);
      RoundPower(f, r, a, b, w, k - 1);
      RoundSquared(v, h * a, h * b, w, r, Iterate(f, h, r));
      Doubled(h, a);
      Doubled(h, b);
    }
  }

  lemma Doubled(h: nat, a: nat)
    ensures 2 * (h * a) == (2 * h) * a
  {}

  /** On words of `2^k` bits, as many rounds as there are bits are the identity; so one round is
      undone by the remaining ones, before or after it. */
  lemma RoundOrder(f: nat -> nat, v: nat, a: nat, b: nat, w: nat, k: nat)
    requires w == Pow2(k) && ActsAsRound(f, a, b, w) && v < Pow2(w)
    ensures Iterate(f, w, v) == v
    ensures Iterate(f, w - 1, f(v)) == v && f(Iterate(f, w - 1, v)) == v
  {
    RoundPower(f, v, a, b, w, k);
    FullTurnRound(v, a, b, w, Iterate(f, w, v));
    IterateAdd(f, w - 1, 1, v);
    assert Iterate(f, 1, v) == f(Iterate(f, 0, v));
  }

  lemma {:induction false} IterateFits(f: nat -> nat, v: nat, a: nat, b: nat, w: nat, n: nat)
    requires w > 0 && ActsAsRound(f, a, b, w) && v < Pow2(w)
    ensures Iterate(f, n, v) < Pow2(w)
  {
    if n > 0 {
      IterateFits(f, v, a, b, w, n - 1);
      assert IsRound(Iterate(f, n - 1, v), a, b, w, f(Iterate(f, n - 1, v)));
    }
  }

  function RotateXorBy(a: nat, b: nat, w: nat): nat -> nat
    requires 0 < a < w && 0 < b < w
  {
    x => RotateXor(x, a, b, w)
  }

  lemma RotateXorActsAsRound(a: nat, b: nat, w: nat)
    requires 0 < a < w && 0 < b < w
    ensures ActsAsRound(RotateXorBy(a, b, w), a, b, w)
  {
    forall x: nat | x < Pow2(w) ensures IsRound(x, a, b, w, RotateXorBy(a, b, w)(x)) {
      RotateXorIsRound(x, a, b, w);
    }
  }

  /** All the other rounds of a full cycle. */
  function UndoRotateXor(v: nat, a: nat, b: nat, w: nat): nat
    requires 0 < a < w && 0 < b < w
  {
    Iterate(RotateXorBy(a, b, w), w - 1, v)
  }

  /** A rotate-xor repeated once for every bit of the word is the identity, so it can be undone. */
  lemma RotateXorUndone(v: nat, a: nat, b: nat, w: nat, k: nat)
    requires w == Pow2(k) && 0 < a < w && 0 < b < w && v < Pow2(w)
    ensures Iterate(RotateXorBy(a, b, w), w, v) == v
    ensures UndoRotateXor(RotateXor(v, a, b, w), a, b, w) == v
    ensures RotateXor(UndoRotateXor(v, a, b, w), a, b, w) == v
    ensures RotateXor(v, a, b, w) < Pow2(w) && UndoRotateXor(v, a, b, w) < Pow2(w)
  {
    hide Pow2, RotateXor;
    RotateXorActsAsRound(a, b, w);
    RotateXorIsRound(v, a, b, w);
    RoundOrder(RotateXorBy(a, b, w), v, a, b, w, k);
    IterateFits(RotateXorBy(a, b, w), v, a, b, w, w - 1);
  }

  // ----- xor-shifts

  /** `r` is `v ^ (v >> s)`, bit by bit. */
  ghost predicate IsShift(v: nat, s: nat, r: nat) {
    forall i: nat :: Bit(r, i) == (Bit(v, i) != Bit(v, i + s))
  }

  lemma XorShiftIsShift(v: nat, s: nat)
    ensures IsShift(v, s, XorShift(v, s))
  {
    forall i: nat ensures Bit(XorShift(v, s), i) == (Bit(v, i) != Bit(v, i + s)) {
      XorBit(v, Shr(v, s), i);
      ShrBit(v, s, i);
    }
  }

  /** Two xor-shifts are one with the shift doubled. */
  lemma ShiftSquared(v: nat, s: nat, r: nat, rr: nat)
    requires IsShift(v, s, r) && IsShift(r, s, rr)
    ensures IsShift(v, 2 * s, rr)
  {
    forall i: nat ensures Bit(rr, i) == (Bit(v, i) != Bit(v, i + 2 * s)) {
      assert Bit(r, i + s) == (Bit(v, i + s) != Bit(v, i + s + s));
    }
  }

  /** Three more xor-shifts. */
  function UndoShift(v: nat, s: nat): nat {
    XorShift(XorShift(XorShift(v, s), s), s)
  }

  /** Four xor-shifts that together shift out the whole word are the identity. */
  lemma ShiftUndone(v: nat, s: nat, w: nat)
    requires v < Pow2(w) && w <= 4 * s
    ensures UndoShift(XorShift(v, s), s) == v && XorShift(UndoShift(v, s), s) == v
    ensures UndoShift(v, s) < Pow2(w)
  {
    var v1 := XorShift(v, s);
    var v2 := XorShift(v1, s);
    var v3 := XorShift(v2, s);
    var v4 := XorShift(v3, s);
    XorShiftIsShift(v, s);
    XorShiftIsShift(v1, s);
    XorShiftIsShift(v2, s);
    XorShiftIsShift(v3, s);
    ShiftSquared(v, s, v1, v2);
    ShiftSquared(v2, s, v3, v4);
    ShiftSquared(v, 2 * s, v2, v4);
    forall i: nat ensures Bit(v4, i) == Bit(v, i) {
      HighBitClear(v, w, i + 4 * s);
      assert i + 2 * (2 * s) == i + 4 * s;
    }
    SameBits(v4, v);
    forall i: nat | w <= i ensures !Bit(v3, i) {
      HighBitClear(v, w, i);
      HighBitClear(v, w, i + s);
      HighBitClear(v, w, i + 2 * s);
      HighBitClear(v, w, i + s + 2 * s);
      assert Bit(v3, i) == (Bit(v2, i) != Bit(v2, i + s));
    }
    FitsWhenClear(v3, w);
  }

  // ----- multiplications

  lemma MultiplyUndone(v: nat, m: nat, inverse: nat, w: nat)
    requires v < Pow2(w) && ((m * inverse) % Pow2(w) == 1 || (inverse * m) % Pow2(w) == 1)
    ensures Multiply(Multiply(v, m, w), inverse, w) == v
    ensures Multiply(v, m, w) < Pow2(w)
  {
    assert m * inverse == inverse * m;
    ProductUndone(v, m, inverse, Pow2(w));
  }

  lemma ProductUndone(v: nat, m: nat, inverse: nat, p: nat)
    requires v < p && (m * inverse) % p == 1
    ensures (((v * m) % p) * inverse) % p == v
  {
    var q1 := (v * m) / p;
    var q2 := (m * inverse) / p;
    var x := (v * m) % p;
    assert v * m == p * q1 + x;
    assert m * inverse == p * q2 + 1;
    Regroup(v, m, inverse, p, q1, q2, x);
    RemainderUnique(x * inverse, p, v * q2 - q1 * inverse, v);
  }

  lemma Regroup(v: nat, m: nat, n: nat, p: nat, q1: nat, q2: nat, x: nat)
    requires v * m == p * q1 + x && m * n == p * q2 + 1
    ensures x * n == v + p * (v * q2 - q1 * n)
  {
    assert (v * m) * n == v * (m * n);
    assert (p * q1 + x) * n == p * (q1 * n) + x * n;
    assert v * (p * q2 + 1) == p * (v * q2) + v;
    assert p * (v * q2 - q1 * n) == p * (v * q2) - p * (q1 * n);
  }

  lemma RemainderUnique(x: nat, p: nat, k: int, v: nat)
    requires v < p && x == v + p * k
    ensures x % p == v
  {
    var d := x / p - k;
    assert x == p * (x / p) + x % p;
    assert p * d == v - x % p by { assert p * d == p * (x / p) - p * k; }
    if d >= 1 { ProductAtLeast(p, d); } else if d <= -1 { ProductAtLeast(p, -d); }
  }

  lemma ProductAtLeast(p: nat, d: nat)
    requires d >= 1
    ensures p * d >= p
  {
    assert p * d == p + p * (d - 1);
  }

  // ----- the stages

  /** A hash, stage by stage: bit by bit for the rotations and shifts. */
  ghost predicate Stages(a1: nat, b1: nat, m1: nat, a2: nat, b2: nat, m2: nat, s: nat, w: nat,
                         v: nat, v1: nat, v2: nat, v3: nat, v4: nat, h: nat)
    requires w > 0
  {
    && IsRound(v, a1, b1, w, v1) && v2 == (v1 * m1) % Pow2(w)
    && IsRound(v2, a2, b2, w, v3) && v4 == (v3 * m2) % Pow2(w) && IsShift(v4, s, h)
  }

  lemma RoundIsUnique(v: nat, a: nat, b: nat, w: nat, r: nat, r2: nat)
    requires w > 0 && IsRound(v, a, b, w, r) && IsRound(v, a, b, w, r2)
    ensures r == r2
  {
    forall i: nat ensures Bit(r, i) == Bit(r2, i) {
      if i < w {
        assert RoundAt(v, a, b, w, r, i) && RoundAt(v, a, b, w, r2, i);
      } else {
        HighBitClear(r, w, i);
        HighBitClear(r2, w, i);
      }
    }
    SameBits(r, r2);
  }

  /** The hash is what the stages make of the word: two rounds of rotations, each followed by a
      multiplication, and a shift, with the constants of the source. */
  lemma HashIsStages(v: nat, v1: nat, v2: nat, v3: nat, v4: nat, h: nat)
    ensures v < Pow2(64) && Stages(25, 50, 0xA24BAED4963EE407, 24, 49, 0x9FB21C651E98DF25, 28, 64, v, v1, v2, v3, v4, h)
            ==> Hash(MIXER_64, v) == h
    ensures v < Pow2(32) && Stages(12, 24, 0x963EE407, 11, 23, 0x1E98DF25, 14, 32, v, v1, v2, v3, v4, h)
            ==> Hash(MIXER_32, v) == h
  {
    hide Pow2, RotateXor, IsRound, IsShift, XorShift;
    if v < Pow2(64) && Stages(25, 50, 0xA24BAED4963EE407, 24, 49, 0x9FB21C651E98DF25, 28, 64, v, v1, v2, v3, v4, h) {
      StagesMakeHash(MIXER_64, v, v1, v2, v3, v4, h);
    }
    if v < Pow2(32) && Stages(12, 24, 0x963EE407, 11, 23, 0x1E98DF25, 14, 32, v, v1, v2, v3, v4, h) {
      StagesMakeHash(MIXER_32, v, v1, v2, v3, v4, h);
    }
  }

  lemma StagesMakeHash(c: Mixer, v: nat, v1: nat, v2: nat, v3: nat, v4: nat, h: nat)
    requires 0 < c.a1 < c.w && 0 < c.b1 < c.w && 0 < c.a2 < c.w && 0 < c.b2 < c.w && v < Pow2(c.w)
    requires Stages(c.a1, c.b1, c.m1, c.a2, c.b2, c.m2, c.s, c.w, v, v1, v2, v3, v4, h)
    ensures Hash(c, v) == h
  {
    hide Pow2, RotateXor, IsRound, IsShift, XorShift, Multiply;
    ProductFits(v1, c.m1, c.w);
    ProductFits(v3, c.m2, c.w);
    RotateXorIsRound(v, c.a1, c.b1, c.w);
    RoundIsUnique(v, c.a1, c.b1, c.w, RotateXor(v, c.a1, c.b1, c.w), v1);
    RotateXorIsRound(v2, c.a2, c.b2, c.w);
    RoundIsUnique(v2, c.a2, c.b2, c.w, RotateXor(v2, c.a2, c.b2, c.w), v3);
    XorShiftIsShift(v4, c.s);
    ShiftIsUnique(v4, c.s, XorShift(v4, c.s), h);
  }

  lemma ProductFits(v: nat, m: nat, w: nat)
    ensures Multiply(v, m, w) == (v * m) % Pow2(w) < Pow2(w)
  {}

  lemma ShiftIsUnique(v: nat, s: nat, r: nat, r2: nat)
    requires IsShift(v, s, r) && IsShift(v, s, r2)
    ensures r == r2
  {
    forall i: nat ensures Bit(r, i) == Bit(r2, i) {
      assert Bit(r, i) == (Bit(v, i) != Bit(v, i + s));
      assert Bit(r2, i) == (Bit(v, i) != Bit(v, i + s));
    }
    SameBits(r, r2);
  }

  // ----- the whole mixer

  /** Each stage undone, the last one first. */
  function Unhash(c: Mixer, h: nat): nat
    requires 0 < c.a1 < c.w && 0 < c.b1 < c.w && 0 < c.a2 < c.w && 0 < c.b2 < c.w
  {
    var v4 := UndoShift(h, c.s);
    var v3 := Multiply(v4, c.inverse2, c.w);
    var v2 := UndoRotateXor(v3, c.a2, c.b2, c.w);
    var v1 := Multiply(v2, c.inverse1, c.w);
    UndoRotateXor(v1, c.a1, c.b1, c.w)
  }

  /** The hashed word is recovered from its hash. */
  lemma UnhashOfHash(c: Mixer, value: nat)
    requires Invertible(c) && value < Pow2(c.w)
    ensures Unhash(c, Hash(c, value)) == value
  {
    var k := if c.w == Pow2(5) then 5 else 6;
    RotateXorUndone(value, c.a1, c.b1, c.w, k);
    var v1 := RotateXor(value, c.a1, c.b1, c.w);
    MultiplyUndone(v1, c.m1, c.inverse1, c.w);
    var v2 := Multiply(v1, c.m1, c.w);
    RotateXorUndone(v2, c.a2, c.b2, c.w, k);
    var v3 := RotateXor(v2, c.a2, c.b2, c.w);
    MultiplyUndone(v3, c.m2, c.inverse2, c.w);
    ShiftUndone(Multiply(v3, c.m2, c.w), c.s, c.w);
  }

  /** Every word is the hash of a word. */
  lemma HashOfUnhash(c: Mixer, h: nat)
    requires Invertible(c) && h < Pow2(c.w)
    ensures Hash(c, Unhash(c, h)) == h && Unhash(c, h) < Pow2(c.w)
  {
    var k := if c.w == Pow2(5) then 5 else 6;
    ShiftUndone(h, c.s, c.w);
    var v4 := UndoShift(h, c.s);
    MultiplyUndone(v4, c.inverse2, c.m2, c.w);
    var v3 := Multiply(v4, c.inverse2, c.w);
    RotateXorUndone(v3, c.a2, c.b2, c.w, k);
    var v2 := UndoRotateXor(v3, c.a2, c.b2, c.w);
    MultiplyUndone(v2, c.inverse1, c.m1, c.w);
    RotateXorUndone(Multiply(v2, c.inverse1, c.w), c.a1, c.b1, c.w, k);
  }

  /** `integer_hash_64` is a permutation of the 64-bit words and `integer_hash_32` of the 32-bit
      ones: distinct words have distinct hashes, and every word is a hash. */
  lemma HashesArePermutations(c: Mixer, x: nat, y: nat)
    requires c == MIXER_64 || c == MIXER_32
    requires x < Pow2(c.w) && y < Pow2(c.w)
    ensures Invertible(c)
    ensures Hash(c, x) == Hash(c, y) ==> x == y
    ensures exists z | 0 <= z < Pow2(c.w) :: Hash(c, z) == y
  {
    MixersInvertible();
    UnhashOfHash(c, x);
    UnhashOfHash(c, y);
    HashOfUnhash(c, y);
  }
}
