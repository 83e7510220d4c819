/** The far end of the two wires: the serial wire protocol engine of the target (ARM IHI 0031, section
    B4.2), which sees one bit per rising edge of SWCLK and answers on SWDIO. */
module Wire {
  import opened Bits
  import opened DebugPort

  const ACK_OK: nat := 1

  /** How the target answers one request: the acknowledgement, and, for a read, whether the data
      arrive garbled, as the word `noise` with a parity bit that does not match it. */
  datatype Response = Response(ack: nat, garbled: bool, noise: Word)

  ghost predicate ValidScript(script: seq<Response>) {
    forall r <- script :: r.ack < 8
  }

  /** Where the protocol engine is within a packet. */
  datatype Link =
    | Idle
    | Request(bits: seq<bool>)
    | TurnToTarget(ap: bool, read: bool, register: nat)
    | Acking(ack: nat, sent: nat, next: Link)
    | Sending(bits: seq<bool>)
    | TurnToHost
    | TurnForWrite(ap: bool, register: nat)
    | Receiving(ap: bool, register: nat, bits: seq<bool>)
    | Lost

  /** The answers are scripted; once the script has run out every request is acknowledged. */
  datatype Board = Board(link: Link, dp: Dp, script: seq<Response>)

  function NextResponse(script: seq<Response>): Response {
    if script == [] then Response(ACK_OK, false, 0) else script[0]
  }

  function RestOf(script: seq<Response>): seq<Response> {
    if script == [] then [] else script[1..]
  }

  /** The answers left after `k` requests. */
  function Drop(script: seq<Response>, k: nat): seq<Response> {
    if k <= |script| then script[k..] else []
  }

  /** The first `k` requests are acknowledged, and their data arrive. */
  ghost predicate StartsOk(script: seq<Response>, k: nat) {
    forall i | 0 <= i < k && i < |script| :: script[i].ack == ACK_OK && !script[i].garbled
  }

  /** Every answer that is scripted is good. */
  ghost predicate AllOk(script: seq<Response>) {
    StartsOk(script, |script|)
  }

  lemma AllOkStarts(script: seq<Response>, k: nat)
    requires AllOk(script)
    ensures StartsOk(script, k) && AllOk(Drop(script, k))
  {
    forall i | 0 <= i < |Drop(script, k)|
      ensures Drop(script, k)[i].ack == ACK_OK && !Drop(script, k)[i].garbled
    {
      assert Drop(script, k)[i] == script[k + i];
    }
  }

  lemma StartsOkThen(script: seq<Response>, a: nat, b: nat)
    ensures Drop(Drop(script, a), b) == Drop(script, a + b)
    ensures StartsOk(script, a + b) <==> StartsOk(script, a) && StartsOk(Drop(script, a), b)
  {
    if StartsOk(script, a) && StartsOk(Drop(script, a), b) {
      forall i | 0 <= i < a + b && i < |script| ensures script[i].ack == ACK_OK && !script[i].garbled {
        if i >= a { assert Drop(script, a)[i - a] == script[i]; }
      }
    }
  }

  /** The low `n` bits of a word, least significant first. */
  function LsbFirst(v: nat, n: nat): (bits: seq<bool>)
    ensures |bits| == n
  {
    if n == 0 then [] else [v % 2 == 1] + LsbFirst(v / 2, n - 1)
  }

  /** The word that a sequence of bits spells. */
  function FromBits(bits: seq<bool>): nat {
    if bits == [] then 0 else Digit(bits[0]) + 2 * FromBits(bits[1..])
  }

  /** Whether the number of ones is odd. */
  predicate Odd(bits: seq<bool>) {
    if bits == [] then false else bits[0] != Odd(bits[1..])
  }

  /** A request packet: start, port, direction, two address bits, even parity, stop and park. */
  function Frame(ap: bool, read: bool, register: nat): seq<bool> {
    [true, ap, read, Bit(register, 0), Bit(register, 1),
     Odd([ap, read, Bit(register, 0), Bit(register, 1)]), false, true]
  }

  predicate WellFramed(bits: seq<bool>)
    requires |bits| == 8
  {
    bits[0] && bits[5] == Odd(bits[1..5]) && !bits[6] && bits[7]
  }

  /** The data phase of a read: 32 bits and even parity. */
  function DataBits(v: nat): seq<bool> {
    LsbFirst(v, 32) + [Parity(v)]
  }

  /** The level that the target puts on SWDIO; the line is pulled up when the target does not drive. */
  function Level(b: Board): bool {
    match b.link
    case Acking(ack, sent, _) => Bit(ack, sent)
    case Sending(bits) => if bits == [] then true else bits[0]
    case _ => true
  }

  /** The target answers a request with response `r`, leaving the responses `rest` for later. */
  function AnswerWith(dp: Dp, r: Response, rest: seq<Response>, ap: bool, read: bool, register: nat): Board
    requires dp.window > 0
  {
    if r.ack != ACK_OK then Board(Acking(r.ack, 0, TurnToHost), dp, rest)
    else if !read then Board(Acking(ACK_OK, 0, TurnForWrite(ap, register)), dp, rest)
    else
      var (v, after) := ReadRegister(dp, ap, register);
      var data := if r.garbled then LsbFirst(r.noise, 32) + [!Parity(r.noise)] else DataBits(v);
      Board(Acking(ACK_OK, 0, Sending(data)), after, rest)
  }

  function Answer(b: Board, ap: bool, read: bool, register: nat): Board
    requires b.dp.window > 0
  {
    AnswerWith(b.dp, NextResponse(b.script), RestOf(b.script), ap, read, register)
  }

  /** One rising edge of SWCLK. `driven` tells whether the host drives SWDIO, and `level` its level. */
  function Tick(b: Board, driven: bool, level: bool): (r: Board)
    requires b.dp.window > 0
    ensures r.dp.window == b.dp.window
  {
    match b.link
    case Idle => if driven && level then b.(link := Request([true])) else b
    case Request(bits) =>
      if !driven then b.(link := Lost)
      else if |bits| < 7 then b.(link := Request(bits + [level]))
      else if |bits| == 7 && WellFramed(bits + [level])
      then b.(link := TurnToTarget(bits[1], bits[2], Digit(bits[3]) + 2 * Digit(bits[4])))
      else b.(link := Lost)
    case TurnToTarget(ap, read, register) =>
      if driven then b.(link := Lost) else Answer(b, ap, read, register)
    case Acking(ack, sent, next) =>
      if sent < 2 then b.(link := Acking(ack, sent + 1, next)) else b.(link := next)
    case Sending(bits) =>
      if |bits| <= 1 then b.(link := TurnToHost) else b.(link := Sending(bits[1..]))
    case TurnToHost => b.(link := Idle)
    case TurnForWrite(ap, register) => b.(link := Receiving(ap, register, []))
    case Receiving(ap, register, bits) =>
      if !driven then b.(link := Lost)
      else if |bits| < 32 then b.(link := Receiving(ap, register, bits + [level]))
      else if |bits| == 32 && level == Odd(bits) && FromBits(bits) < 0x1_0000_0000
      then Board(Idle, WriteRegister(b.dp, ap, register, FromBits(bits)), b.script)
      else b.(link := Idle)
    case Lost => b
  }

  /** Bits clocked out by the host. */
  function Clocked(b: Board, bits: seq<bool>): (r: Board)
    requires b.dp.window > 0
    ensures r.dp.window == b.dp.window
    decreases |bits|
  {
    if bits == [] then b else Clocked(Tick(b, true, bits[0]), bits[1..])
  }

  /** A clock with SWDIO floating. */
  function Floated(b: Board): (r: Board)
    requires b.dp.window > 0
    ensures r.dp.window == b.dp.window
  {
    Tick(b, false, Level(b))
  }

  /** `n` clocks with SWDIO floating. */
  function FloatedFor(b: Board, n: nat): (r: Board)
    requires b.dp.window > 0
    ensures r.dp.window == b.dp.window
  {
    if n == 0 then b else Floated(FloatedFor(b, n - 1))
  }

  /** The levels that the host samples before each of `n` such clocks. */
  function Sampled(b: Board, n: nat): (bits: seq<bool>)
    requires b.dp.window > 0
    ensures |bits| == n
  {
    if n == 0 then [] else Sampled(b, n - 1) + [Level(FloatedFor(b, n - 1))]
  }

  // ----- words and their bits

  lemma {:induction false} LsbFirstBit(v: nat, n: nat, i: nat)
    requires i < n
    ensures LsbFirst(v, n)[i] == Bit(v, i)
  {
    if i > 0 { LsbFirstBit(v / 2, n - 1, i - 1); }
  }

  lemma {:induction false} FromBitsBit(bits: seq<bool>, i: nat)
    ensures Bit(FromBits(bits), i) == (i < |bits| && bits[i])
    ensures FromBits(bits) < Pow2(|bits|)
  {
    if bits == [] {
      ZeroBit(i);
    } else {
      FromBitsBit(bits[1..], if i == 0 then 0 else i - 1);
      assert FromBits(bits) / 2 == FromBits(bits[1..]);
    }
  }

  /** A word is spelled by its own bits. */
  lemma {:induction false} FromLsbFirst(v: nat, n: nat)
    requires v < Pow2(n)
    ensures FromBits(LsbFirst(v, n)) == v
  {
    if n > 0 {
      FromLsbFirst(v / 2, n - 1);
      assert LsbFirst(v, n)[1..] == LsbFirst(v / 2, n - 1);
    }
  }

  /** The parity of a word is that of its bits. */
  lemma {:induction false} ParityIsOdd(bits: seq<bool>)
    ensures Parity(FromBits(bits)) == Odd(bits)
  {
    if bits != [] {
      ParityIsOdd(bits[1..]);
      assert FromBits(bits) / 2 == FromBits(bits[1..]);
    }
  }

  lemma ParityOfLsbFirst(v: Word)
    ensures Parity(v) == Odd(LsbFirst(v, 32)) && FromBits(LsbFirst(v, 32)) == v
  {
    WordWidths();
    FromLsbFirst(v, 32);
    ParityIsOdd(LsbFirst(v, 32));
  }

  /** Flipping one bit changes the parity. */
  lemma {:induction false} FlipChangesOdd(bits: seq<bool>, i: nat)
    requires i < |bits|
    ensures Odd(bits[i := !bits[i]]) != Odd(bits)
  {
    var flipped := bits[i := !bits[i]];
    if i == 0 {
      assert flipped[1..] == bits[1..];
    } else {
      FlipChangesOdd(bits[1..], i - 1);
      assert flipped[1..] == bits[1..][i - 1 := !bits[i]];
    }
  }

  lemma {:induction false} OddAppend(a: seq<bool>, b: bool)
    ensures Odd(a + [b]) == (Odd(a) != b)
  {
    if a == [] {
      assert a + [b] == [b];
    } else {
      OddAppend(a[1..], b);
      assert (a + [b])[1..] == a[1..] + [b];
    }
  }

  /** The receiver's check: the last bit is the parity of the others. */
  predicate Accepted(bits: seq<bool>)
    requires |bits| == 33
  {
    Parity(FromBits(bits[..32])) == bits[32]
  }

  /** The data phase of a read is accepted and spells the word; with any one of its 33 bits flipped
      it is rejected. */
  lemma OneFlipIsRejected(v: Word, i: nat)
    requires i < 33
    ensures Accepted(DataBits(v)) && FromBits(DataBits(v)[..32]) == v
    ensures !Accepted(DataBits(v)[i := !DataBits(v)[i]])
  {
    var bits := DataBits(v);
    ParityOfLsbFirst(v);
    assert bits[..32] == LsbFirst(v, 32);
    var flipped := bits[i := !bits[i]];
    FlipChangesOdd(bits, i);
    OddAppend(bits[..32], bits[32]);
    assert bits == bits[..32] + [bits[32]];
    OddAppend(flipped[..32], flipped[32]);
    assert flipped == flipped[..32] + [flipped[32]];
    ParityIsOdd(flipped[..32]);
  }

  // ----- packets

  lemma {:induction false} ClockedAppend(b: Board, xs: seq<bool>, ys: seq<bool>)
    requires b.dp.window > 0
    ensures Clocked(b, xs + ys) == Clocked(Clocked(b, xs), ys)
    decreases |xs|
  {
    if xs == [] {
      assert xs + ys == ys;
    } else {
      assert (xs + ys)[1..] == xs[1..] + ys;
      ClockedAppend(Tick(b, true, xs[0]), xs[1..], ys);
    }
  }

  lemma {:induction false} FloatedFirst(b: Board, n: nat)
    requires b.dp.window > 0 && n > 0
    ensures FloatedFor(b, n) == FloatedFor(Floated(b), n - 1)
    ensures Sampled(b, n) == [Level(b)] + Sampled(Floated(b), n - 1)
  {
    if n > 1 {
      FloatedFirst(b, n - 1);
    } else {
      assert FloatedFor(b, 0) == b;
    }
  }

  /** An idle target ignores zeros. */
  lemma {:induction false} IdleClocks(b: Board, bits: seq<bool>)
    requires b.dp.window > 0 && b.link == Idle && forall x <- bits :: !x
    ensures Clocked(b, bits) == b
    decreases |bits|
  {
    if bits != [] {
      assert bits[0] in bits;
      assert forall x <- bits[1..] :: x in bits;
      IdleClocks(b, bits[1..]);
    }
  }

  lemma TwoBits(register: nat)
    requires register < 4
    ensures register == Digit(Bit(register, 0)) + 2 * Digit(Bit(register, 1))
  {
    assert Bit(register, 1) == Bit(register / 2, 0);
  }

  lemma {:induction false} RequestGrows(b: Board, have: seq<bool>, more: seq<bool>)
    requires b.dp.window > 0 && b.link == Request(have) && 0 < |have| && |have| + |more| <= 7
    ensures Clocked(b, more) == b.(link := Request(have + more))
    decreases |more|
  {
    if more == [] {
      assert have + more == have;
    } else {
      RequestGrows(Tick(b, true, more[0]), have + [more[0]], more[1..]);
      assert have + [more[0]] + more[1..] == have + more;
    }
  }

  lemma RequestCompletes(b: Board, f: seq<bool>, ap: bool, read: bool, register: nat)
    requires b.dp.window > 0 && register < 4 && f == Frame(ap, read, register)
    ensures Tick(b.(link := Request(f[..7])), true, f[7]) == b.(link := TurnToTarget(ap, read, register))
  {
    hide Odd, Frame, WellFramed, Bit;
    FrameFits(f, ap, read, register);
    assert f[..7] + [f[7]] == f;
  }

  lemma FrameFits(f: seq<bool>, ap: bool, read: bool, register: nat)
    requires register < 4 && f == Frame(ap, read, register)
    ensures |f| == 8 && WellFramed(f) && f[1] == ap && f[2] == read && Digit(f[3]) + 2 * Digit(f[4]) == register
  {
    assert f[1..5] == [ap, read, Bit(register, 0), Bit(register, 1)];
    TwoBits(register);
  }

  /** A request packet is understood as what it asks for. */
  lemma RequestUnderstood(b: Board, ap: bool, read: bool, register: nat)
    requires b.dp.window > 0 && b.link == Idle && register < 4
    ensures Clocked(b, Frame(ap, read, register)) == b.(link := TurnToTarget(ap, read, register))
  {
    var f := Frame(ap, read, register);
    var b1 := b.(link := Request([true]));
    assert f == [true] + (f[1..7] + [f[7]]);
    assert Clocked(b, f) == Clocked(b1, f[1..7] + [f[7]]);
    RequestGrows(b1, [true], f[1..7]);
    assert [true] + f[1..7] == f[..7];
    ClockedAppend(b1, f[1..7], [f[7]]);
    OneClock(b.(link := Request(f[..7])), f[7]);
    RequestCompletes(b, f, ap, read, register);
  }

  lemma OneClock(b: Board, level: bool)
    requires b.dp.window > 0
    ensures Clocked(b, [level]) == Tick(b, true, level)
  {
    assert Clocked(Tick(b, true, level), []) == Tick(b, true, level);
  }

  /** The three clocks of an acknowledgement carry it, least significant bit first. */
  lemma AckPhase(b: Board)
    requires b.dp.window > 0 && b.link.Acking? && b.link.sent == 0 && b.link.ack < 8
    ensures FloatedFor(b, 3) == b.(link := b.link.next)
    ensures FromBits(Sampled(b, 3)) == b.link.ack
  {
    var ack, next := b.link.ack, b.link.next;
    var b1, b2 := b.(link := Acking(ack, 1, next)), b.(link := Acking(ack, 2, next));
    FloatedFirst(b, 3);
    FloatedFirst(b1, 2);
    FloatedFirst(b2, 1);
    assert Sampled(b, 3) == [Bit(ack, 0), Bit(ack, 1), Bit(ack, 2)];
    assert Sampled(b, 3) == LsbFirst(ack, 3) by {
      LsbFirstBit(ack, 3, 0);
      LsbFirstBit(ack, 3, 1);
      LsbFirstBit(ack, 3, 2);
    }
    assert Pow2(3) == 8;
    FromLsbFirst(ack, 3);
  }

  /** A read's data phase shows exactly the bits that the target sends. */
  lemma {:induction false} SendPhase(b: Board, bits: seq<bool>)
    requires b.dp.window > 0 && b.link == Sending(bits) && bits != []
    ensures FloatedFor(b, |bits|) == b.(link := TurnToHost)
    ensures Sampled(b, |bits|) == bits
    decreases |bits|
  {
    FloatedFirst(b, |bits|);
    if |bits| > 1 {
      SendPhase(b.(link := Sending(bits[1..])), bits[1..]);
    }
  }

  lemma {:induction false} ReceiveGrows(b: Board, ap: bool, register: nat, have: seq<bool>, more: seq<bool>)
    requires b.dp.window > 0 && b.link == Receiving(ap, register, have) && |have| + |more| <= 32
    ensures Clocked(b, more) == b.(link := Receiving(ap, register, have + more))
    decreases |more|
  {
    if more == [] {
      assert have + more == have;
    } else {
      ReceiveGrows(Tick(b, true, more[0]), ap, register, have + [more[0]], more[1..]);
      assert have + [more[0]] + more[1..] == have + more;
    }
  }

  /** A write's data phase delivers exactly the word that the host sends. */
  lemma ReceivePhase(b: Board, ap: bool, register: nat, v: Word)
    requires b.dp.window > 0 && b.link == Receiving(ap, register, [])
    ensures Clocked(b, DataBits(v)) == Board(Idle, WriteRegister(b.dp, ap, register, v), b.script)
  {
    hide Tick, LsbFirst, Parity, WriteRegister, FromBits, Odd;
    var bits := LsbFirst(v, 32);
    var received := b.(link := Receiving(ap, register, bits));
    ReceiveGrows(b, ap, register, [], bits);
    assert [] + bits == bits;
    ClockedAppend(b, bits, [Parity(v)]);
    OneClock(received, Parity(v));
    WordReceived(received, ap, register, v);
  }

  lemma WordReceived(b: Board, ap: bool, register: nat, v: Word)
    requires b.dp.window > 0 && b.link == Receiving(ap, register, LsbFirst(v, 32))
    ensures Tick(b, true, Parity(v)) == Board(Idle, WriteRegister(b.dp, ap, register, v), b.script)
  {
    hide LsbFirst, Parity, WriteRegister, FromBits, Odd;
    ParityOfLsbFirst(v);
  }
}
