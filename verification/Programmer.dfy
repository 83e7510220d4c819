/** The bit-banged programmer (`hal/programmer/stm32l4xx_programmer.cc`): two pins driven level by
    level. What hangs on the wires advances at every rising edge of SWCLK. Delays are left out; only
    the order of edges matters. */
module Programmer {
  import opened Bits
  import opened Wire

  datatype SwdioDriveState = FLOAT | DRIVE

  /** A rising edge of SWCLK: whether the host drives SWDIO, and the level of the line. */
  datatype Edge = Edge(driven: bool, level: bool)

  function DrivenEdges(bits: seq<bool>): (e: seq<Edge>)
    ensures |e| == |bits|
  {
    if bits == [] then [] else DrivenEdges(bits[..|bits| - 1]) + [Edge(true, bits[|bits| - 1])]
  }

  function FloatingEdges(bits: seq<bool>): (e: seq<Edge>)
    ensures |e| == |bits|
  {
    if bits == [] then [] else FloatingEdges(bits[..|bits| - 1]) + [Edge(false, bits[|bits| - 1])]
  }

  /** The target after the change of direction, which takes one clock if there is one. */
  function Turned(from: SwdioDriveState, want: SwdioDriveState, b: Board): (r: Board)
    requires b.dp.window > 0
    ensures r.dp.window == b.dp.window
  {
    if from == want then b else Floated(b)
  }

  function TurnEdges(from: SwdioDriveState, want: SwdioDriveState, b: Board): seq<Edge> {
    if from == want then [] else [Edge(false, Level(b))]
  }

  lemma ClockedSnoc(b: Board, bits: seq<bool>, level: bool)
    requires b.dp.window > 0
    ensures Clocked(b, bits + [level]) == Tick(Clocked(b, bits), true, level)
  {
    ClockedAppend(b, bits, [level]);
    OneClock(Clocked(b, bits), level);
  }

  lemma DrivenEdgesSnoc(bits: seq<bool>, level: bool)
    ensures DrivenEdges(bits + [level]) == DrivenEdges(bits) + [Edge(true, level)]
  {
    assert (bits + [level])[..|bits|] == bits;
  }

  lemma NothingSent(b: Board)
    requires b.dp.window > 0
    ensures Clocked(b, []) == b && DrivenEdges([]) == []
  {}

  class ProgrammerStm32l4xx {
    var swdioIsOutput: bool
    var swdioLevel: bool
    var swclk: bool
    var currentSwdioDriveState: SwdioDriveState
    /** The target at the other end. */
    var board: Board
    ghost var edges: seq<Edge>

    /** Between calls the clock is low, and SWDIO is an output exactly while the host drives it. */
    ghost predicate Valid()
      reads this
    {
      !swclk && board.dp.window > 0 && (swdioIsOutput <==> currentSwdioDriveState == DRIVE)
    }

    constructor (board: Board)
      requires board.dp.window > 0
      ensures Valid() && this.board == board && currentSwdioDriveState == FLOAT && edges == []
    {
      swdioIsOutput, swdioLevel, swclk := false, false, false;
      currentSwdioDriveState := FLOAT;
      this.board := board;
      edges := [];
    }

    function Line(): bool
      reads this
    {
      if swdioIsOutput then swdioLevel else Level(board)
    }

    /** `write_pin` on SWCLK. */
    method WriteSwclk(level: bool)
      requires board.dp.window > 0
      modifies this`swclk, this`board, this`edges
      ensures swclk == level
      ensures board == if level && !old(swclk) then Tick(old(board), swdioIsOutput, old(Line())) else old(board)
      ensures edges == old(edges) + if level && !old(swclk) then [Edge(swdioIsOutput, old(Line()))] else []
    {
      if level && !swclk {
        edges := edges + [Edge(swdioIsOutput, Line())];
        board := Tick(board, swdioIsOutput, Line());
      }
      swclk := level;
    }

    method Turnaround(state: SwdioDriveState)
      requires Valid()
      modifies this
      ensures Valid() && currentSwdioDriveState == state
      ensures board == Turned(old(currentSwdioDriveState), state, old(board))
      ensures edges == old(edges) + TurnEdges(old(currentSwdioDriveState), state, old(board))
    {
      if currentSwdioDriveState == state { return; }
      currentSwdioDriveState := state;
      if state == FLOAT { swdioIsOutput := false; }
      WriteSwclk(true);
      WriteSwclk(false);
      if state == DRIVE { swdioIsOutput := true; }
    }

    /** One driven bit. */
    method DriveBit(level: bool)
      requires Valid() && currentSwdioDriveState == DRIVE
      modifies this`swdioLevel, this`swclk, this`board, this`edges
      ensures Valid()
      ensures board == Tick(old(board), true, level) && edges == old(edges) + [Edge(true, level)]
    {
      swdioLevel := level;
      WriteSwclk(true);
      WriteSwclk(false);
    }

    /** One sampled bit, the one after `i` clocks from `start`. */
    method SampleBit(ghost start: Board, ghost i: nat) returns (level: bool)
      requires Valid() && currentSwdioDriveState == FLOAT
      requires start.dp.window > 0 && board == FloatedFor(start, i)
      modifies this`swclk, this`board, this`edges
      ensures Valid() && level == Level(old(board))
      ensures board == FloatedFor(start, i + 1) && Sampled(start, i + 1) == Sampled(start, i) + [level]
      ensures edges == old(edges) + [Edge(false, level)]
      ensures FloatingEdges(Sampled(start, i + 1)) == FloatingEdges(Sampled(start, i)) + [Edge(false, level)]
    {
      level := Line();
      WriteSwclk(true);
      WriteSwclk(false);
      SampledMore(start, i);
    }

    /** `send_no_parity`: the low bits of `data`, least significant first. */
    method SendNoParity(data: Word, bitsToSend: nat)
      requires Valid() && bitsToSend <= 32
      modifies this
      ensures Valid() && currentSwdioDriveState == DRIVE
      ensures board == Clocked(Turned(old(currentSwdioDriveState), DRIVE, old(board)), LsbFirst(data, bitsToSend))
      ensures edges == old(edges) + TurnEdges(old(currentSwdioDriveState), DRIVE, old(board))
                       + DrivenEdges(LsbFirst(data, bitsToSend))
    {
      hide Tick, Clocked, LsbFirst, Turned, TurnEdges, BitLevel, Bit, DrivenEdges;
      Turnaround(DRIVE);
      ghost var start, before := board, edges;
      ghost var bits := LsbFirst(data, bitsToSend);
      NothingSent(start);
      for i := 0 to bitsToSend
        invariant Valid() && currentSwdioDriveState == DRIVE
        invariant board == Clocked(start, bits[..i])
        invariant edges == before + DrivenEdges(bits[..i])
      {
        LsbFirstBit(data, bitsToSend, i);
        ClockedSnoc(start, bits[..i], bits[i]);
        assert bits[..i + 1] == bits[..i] + [bits[i]];
        DrivenEdgesSnoc(bits[..i], bits[i]);
        DriveBit(BitLevel(data, i));
      }
      assert bits[..bitsToSend] == bits;
    }

    /** `send`: the same, followed by the parity bit of what was sent. */
    method Send(data: Word, bitsToSend: nat)
      requires Valid() && bitsToSend <= 32
      modifies this
      ensures Valid() && currentSwdioDriveState == DRIVE
      ensures var bits := LsbFirst(data, bitsToSend) + [Odd(LsbFirst(data, bitsToSend))];
        && board == Clocked(Turned(old(currentSwdioDriveState), DRIVE, old(board)), bits)
        && edges == old(edges) + TurnEdges(old(currentSwdioDriveState), DRIVE, old(board)) + DrivenEdges(bits)
    {
      hide Tick, Turned, TurnEdges, Clocked, LsbFirst, Odd;
      var parity := Parity(Truncate(data, bitsToSend));
      ghost var start := Turned(currentSwdioDriveState, DRIVE, board);
      ghost var bits := LsbFirst(data, bitsToSend);
      TruncatedParity(data, bitsToSend);
      SendNoParity(data, bitsToSend);
      ClockedSnoc(start, bits, parity);
      assert (bits + [parity])[..bitsToSend] == bits;
      DriveBit(parity);
    }

    /** `receive_no_parity`. */
    method ReceiveNoParity(bitsToReceive: nat) returns (data: Word)
      requires Valid() && bitsToReceive <= 32
      modifies this
      ensures Valid() && currentSwdioDriveState == FLOAT
      ensures var b := Turned(old(currentSwdioDriveState), FLOAT, old(board));
        && board == FloatedFor(b, bitsToReceive)
        && data == FromBits(Sampled(b, bitsToReceive))
        && edges == old(edges) + TurnEdges(old(currentSwdioDriveState), FLOAT, old(board))
                    + FloatingEdges(Sampled(b, bitsToReceive))
    {
      hide Tick, Turned, TurnEdges, Clocked, LsbFirst, Odd;
      Turnaround(FLOAT);
      ghost var start, before := board, edges;
      data := 0;
      FromBitsBit([], 0);
      for i := 0 to bitsToReceive
        invariant Valid() && currentSwdioDriveState == FLOAT
        invariant board == FloatedFor(start, i)
        invariant edges == before + FloatingEdges(Sampled(start, i))
        invariant data == FromBits(Sampled(start, i))
      {
        var level := SampleBit(start, i);
        data := CollectedWith(data, i, Sampled(start, i), level);
      }
    }

    /** `receive`: reports whether the parity bit matches. */
    method Receive(bitsToReceive: nat) returns (data: Word, matches: bool)
      requires Valid() && bitsToReceive <= 32
      modifies this
      ensures Valid() && currentSwdioDriveState == FLOAT
      ensures var b := Turned(old(currentSwdioDriveState), FLOAT, old(board));
        var bits := Sampled(b, bitsToReceive + 1);
        && board == FloatedFor(b, bitsToReceive + 1)
        && data == FromBits(bits[..bitsToReceive])
        && matches == (Parity(data) == bits[bitsToReceive])
        && edges == old(edges) + TurnEdges(old(currentSwdioDriveState), FLOAT, old(board)) + FloatingEdges(bits)
    {
      hide Tick, Turned, TurnEdges, Clocked, LsbFirst, Odd;
      ghost var start := Turned(currentSwdioDriveState, FLOAT, board);
      data := ReceiveNoParity(bitsToReceive);
      var level := SampleBit(start, bitsToReceive);
      matches := Parity(data) == level;
      assert Sampled(start, bitsToReceive + 1)[..bitsToReceive] == Sampled(start, bitsToReceive);
    }

    /** `idle`: zeros, at most 32 at a time. */
    method IdleCycles(numCycles: nat)
      requires Valid()
      modifies this
      ensures Valid()
      ensures currentSwdioDriveState == if numCycles == 0 then old(currentSwdioDriveState) else DRIVE
      ensures board == AfterIdle(old(currentSwdioDriveState), old(board), numCycles)
      ensures edges == old(edges) + IdleEdges(old(currentSwdioDriveState), old(board), numCycles)
    {
      hide Tick, Clocked, LsbFirst, Turned, TurnEdges, DrivenEdges, Zeros;
      var left := numCycles;
      ghost var done := 0;
      ghost var from, board0, edges0 := currentSwdioDriveState, board, edges;
      while left > 0
        invariant Valid() && done + left == numCycles
        invariant currentSwdioDriveState == if done == 0 then from else DRIVE
        invariant board == AfterIdle(from, board0, done)
        invariant edges == edges0 + IdleEdges(from, board0, done)
      {
        var n := if left < 32 then left else 32;
        IdleMore(from, board0, done, n, edges0);
        SendNoParity(0, n);
        left := left - n;
        done := done + n;
      }
    }
  }

  function AfterIdle(from: SwdioDriveState, b: Board, n: nat): (r: Board)
    requires b.dp.window > 0
    ensures r.dp.window == b.dp.window
  {
    if n == 0 then b else Clocked(Turned(from, DRIVE, b), Zeros(n))
  }

  function IdleEdges(from: SwdioDriveState, b: Board, n: nat): seq<Edge> {
    if n == 0 then [] else TurnEdges(from, DRIVE, b) + DrivenEdges(Zeros(n))
  }

  lemma IdleMore(from: SwdioDriveState, b: Board, m: nat, n: nat, edges: seq<Edge>)
    requires b.dp.window > 0 && n > 0
    ensures var now := if m == 0 then from else DRIVE;
      && AfterIdle(from, b, m + n) == Clocked(Turned(now, DRIVE, AfterIdle(from, b, m)), LsbFirst(0, n))
      && edges + IdleEdges(from, b, m + n)
         == edges + IdleEdges(from, b, m) + TurnEdges(now, DRIVE, AfterIdle(from, b, m)) + DrivenEdges(LsbFirst(0, n))
  {
    ZerosAppend(Turned(from, DRIVE, b), m, n);
  }

  /** `get_bit_field_value<1>`, as a level. */
  function BitLevel(data: Word, i: nat): (level: bool)
    ensures level == Bit(data, i)
  {
    GetFieldBit(data, 1, i, 0);
    GetField(data, 1, i) % 2 == 1
  }

  function Zeros(n: nat): (bits: seq<bool>)
    ensures |bits| == n && forall x <- bits :: !x
  {
    seq(n, _ => false)
  }

  lemma {:induction false} LsbFirstOfZero(n: nat)
    ensures LsbFirst(0, n) == Zeros(n)
  {
    if n > 0 { LsbFirstOfZero(n - 1); }
  }

  lemma {:induction false} DrivenEdgesAppend(a: seq<bool>, b: seq<bool>)
    ensures DrivenEdges(a + b) == DrivenEdges(a) + DrivenEdges(b)
  {
    if b == [] {
      assert a + b == a;
    } else {
      assert (a + b)[..|a + b| - 1] == a + b[..|b| - 1];
      DrivenEdgesAppend(a, b[..|b| - 1]);
    }
  }

  lemma ZerosAppend(b: Board, m: nat, n: nat)
    requires b.dp.window > 0
    ensures LsbFirst(0, n) == Zeros(n)
    ensures Clocked(b, Zeros(m + n)) == Clocked(Clocked(b, Zeros(m)), Zeros(n))
    ensures DrivenEdges(Zeros(m + n)) == DrivenEdges(Zeros(m)) + DrivenEdges(Zeros(n))
  {
    LsbFirstOfZero(n);
    assert Zeros(m + n) == Zeros(m) + Zeros(n);
    ClockedAppend(b, Zeros(m), Zeros(n));
    DrivenEdgesAppend(Zeros(m), Zeros(n));
  }

  lemma {:induction false} TruncatedBits(v: nat, n: nat)
    ensures FromBits(LsbFirst(v, n)) == Truncate(v, n)
  {
    if n > 0 {
      TruncatedBits(v / 2, n - 1);
      assert LsbFirst(v, n)[1..] == LsbFirst(v / 2, n - 1);
    }
  }

  lemma TruncatedParity(v: nat, n: nat)
    ensures Parity(Truncate(v, n)) == Odd(LsbFirst(v, n))
  {
    TruncatedBits(v, n);
    ParityIsOdd(LsbFirst(v, n));
  }

  lemma SampledMore(b: Board, i: nat)
    requires b.dp.window > 0
    ensures Sampled(b, i + 1) == Sampled(b, i) + [Level(FloatedFor(b, i))]
    ensures FloatingEdges(Sampled(b, i + 1)) == FloatingEdges(Sampled(b, i)) + [Edge(false, Level(FloatedFor(b, i)))]
  {
    assert Sampled(b, i + 1)[..i] == Sampled(b, i);
  }

  /** Writing bit `i` of a word that so far spells `i` bits appends a bit. */
  lemma CollectBit(data: Word, bits: seq<bool>, level: bool)
    requires |bits| < 32 && data == FromBits(bits)
    ensures ModifyField(data, Digit(level), 1, |bits|) == FromBits(bits + [level])
    ensures FromBits(bits + [level]) < 0x1_0000_0000
  {
    WordWidths();
    var r := ModifyField(data, Digit(level), 1, |bits|);
    forall i: nat ensures Bit(r, i) == Bit(FromBits(bits + [level]), i) {
      ModifyFieldBit(data, Digit(level), 1, |bits|, WORD_BITS, i);
      FromBitsBit(bits + [level], i);
      FromBitsBit(bits, i);
    }
    SameBits(r, FromBits(bits + [level]));
    ModifyFieldFits(data, Digit(level), 1, |bits|, WORD_BITS);
  }

  /** `modify_bit_field<1>` on the word being received. */
  method CollectedWith(data: Word, i: nat, ghost bits: seq<bool>, level: bool) returns (r: Word)
    requires i == |bits| < 32 && data == FromBits(bits)
    ensures r == FromBits(bits + [level])
  {
    CollectBit(data, bits, level);
    r := ModifyField(data, Digit(level), 1, i);
  }
}
