/** Read and write transfers over the two wires (`serial_wire/serial_wire.h`, `serial_wire.cc`):
    a request packet, an acknowledgement with bounded retry, and a data phase. */
module SerialWire {
  import opened Bits
  import opened DebugPort
  import opened Wire
  import opened Programmer

  /** `Ack`: what the target answers in three bits, and what the host adds to that. */
  type Ack = nat

  const OK: Ack := 1
  const WAIT: Ack := 2
  const ERROR: Ack := 4
  const FAIL: Ack := 7
  const PARITY_FAIL: Ack := 8
  const TOO_MANY_ATTEMPTS: Ack := 11

  const MAX_ATTEMPTS: nat := 8

  // ----- request packets

  /** `BLANK_..._COMMAND`. */
  function Template(ap: bool, read: bool): nat {
    if ap then (if read then 0x87 else 0x83) else if read then 0x85 else 0x81
  }

  lemma FourBits(v: nat, n: nat)
    requires n >= 4
    ensures LsbFirst(v, n)
            == [v % 2 == 1, (v / 2) % 2 == 1, (v / 4) % 2 == 1, (v / 8) % 2 == 1] + LsbFirst(v / 16, n - 4)
  {
    assert LsbFirst(v, n) == [v % 2 == 1] + ([(v / 2) % 2 == 1] + LsbFirst(v / 4, n - 2));
    assert LsbFirst(v / 4, n - 2) == [(v / 4) % 2 == 1] + ([(v / 8) % 2 == 1] + LsbFirst(v / 16, n - 4));
  }

  lemma BitsOfTemplate(v: nat, ap: bool, read: bool)
    requires v == 0x81 + 2 * Digit(ap) + 4 * Digit(read)
    ensures LsbFirst(v, 8) == [true, ap, read, false] + LsbFirst(8, 4)
  {
    FourBits(v, 8);
    assert v / 16 == 8;
  }

  lemma TemplateBits(ap: bool, read: bool)
    ensures LsbFirst(Template(ap, read), 8) == [true, ap, read, false, false, false, false, true]
    ensures Template(ap, read) < Pow2(8)
  {
    WordWidths();
    BitsOfTemplate(Template(ap, read), ap, read);
    FourBits(8, 4);
  }

  /** The register number in an address: its bits 3 and 2. */
  function RegisterOf(addr: nat): (r: nat)
    ensures r < 4
  {
    (addr / 4) % 4
  }

  lemma NoBits()
    ensures !Odd([])
  {}

  /** `compute_command_parity`. */
  method ComputeCommandParity(command: nat) returns (r: nat)
    requires command < Pow2(8)
    ensures r < Pow2(8)
    ensures forall i: nat :: Bit(r, i) == if i == 5 then Odd(Checked(command)) else Bit(command, i)
  {
    hide GetField, ModifyField, Odd, Checked;
    var parity: nat := 0;
    NoBits();
    for i := 1 to 5
      invariant parity < i
      invariant (parity % 2 == 1) == Odd(Checked(command)[..i - 1])
    {
      FieldOfOneBit(command, i);
      OddAppend(Checked(command)[..i - 1], Checked(command)[i - 1]);
      assert Checked(command)[..i] == Checked(command)[..i - 1] + [Checked(command)[i - 1]];
      parity := (parity + GetField(command, 1, i)) % 0x100;
    }
    assert Checked(command)[..4] == Checked(command);
    r := ModifyField(command, parity, 1, 5, 8);
    ModifyFieldFits(command, parity, 1, 5, 8);
    forall i: nat ensures Bit(r, i) == if i == 5 then Odd(Checked(command)) else Bit(command, i) {
      ModifyFieldBit(command, parity, 1, 5, 8, i);
    }
  }

  /** The bits of a command that its parity bit covers. */
  function Checked(command: nat): (bits: seq<bool>)
    ensures |bits| == 4 && forall i | 0 <= i < 4 :: bits[i] == Bit(command, i + 1)
  {
    [Bit(command, 1), Bit(command, 2), Bit(command, 3), Bit(command, 4)]
  }

  lemma FieldOfOneBit(v: nat, i: nat)
    ensures GetField(v, 1, i) == Digit(Bit(v, i))
  {
    var f := GetField(v, 1, i);
    forall j: nat ensures Bit(f, j) == Bit(Digit(Bit(v, i)), j) {
      GetFieldBit(v, 1, i, j);
      if j > 0 { ZeroBit(j - 1); }
    }
    SameBits(f, Digit(Bit(v, i)));
  }

  /** `create_command`: every command is a well-formed request packet for its port, direction and
      register. */
  method CreateCommand(ap: bool, read: bool, addr: nat) returns (command: nat)
    ensures command < Pow2(8)
    ensures LsbFirst(command, 8) == Frame(ap, read, RegisterOf(addr))
  {
    TemplateBits(ap, read);
    command := Template(ap, read);
    ghost var start := command;
    ModifyFieldFits(command, addr / 4, 2, 3, 8);
    command := ModifyField(command, addr / 4, 2, 3, 8);
    ghost var addressed := command;
    command := ComputeCommandParity(command);
    forall i | 0 <= i < 8 ensures LsbFirst(command, 8)[i] == Frame(ap, read, RegisterOf(addr))[i] {
      LsbFirstBit(command, 8, i);
      LsbFirstBit(start, 8, i);
      AddressedBits(start, addr, ap, read);
    }
  }

  lemma AddressedBits(start: nat, addr: nat, ap: bool, read: bool)
    requires start < Pow2(8) && LsbFirst(start, 8) == [true, ap, read, false, false, false, false, true]
    ensures var c := ModifyField(start, addr / 4, 2, 3, 8);
      && Bit(c, 0) && Bit(c, 1) == ap && Bit(c, 2) == read && !Bit(c, 6) && Bit(c, 7)
      && Bit(c, 3) == Bit(RegisterOf(addr), 0) && Bit(c, 4) == Bit(RegisterOf(addr), 1)
  {
    forall i: nat | i < 8
      ensures Bit(ModifyField(start, addr / 4, 2, 3, 8), i)
              == if 3 <= i < 5 then Bit(addr / 4, i - 3) else LsbFirst(start, 8)[i]
    {
      ModifyFieldBit(start, addr / 4, 2, 3, 8, i);
      LsbFirstBit(start, 8, i);
    }
    LowBits(addr / 4);
  }

  lemma LowBits(v: nat)
    ensures Bit(v % 4, 0) == Bit(v, 0) && Bit(v % 4, 1) == Bit(v, 1)
  {
    var q := v / 4;
    assert v % 4 == v - 4 * q;
    assert (v % 4) / 2 == v / 2 - 2 * q;
    assert Bit(v, 1) == Bit(v / 2, 0);
    assert Bit(v % 4, 1) == Bit((v % 4) / 2, 0);
  }

  // ----- the meaning of a transfer

  /** The answer to the last request of a command, and the answers left for later. A request is
      repeated while the target answers WAIT, at most `attempts` times in all. */
  function FinalAnswer(script: seq<Response>, attempts: nat, retry: bool): (Response, seq<Response>)
    requires attempts > 0
    decreases attempts
  {
    var r := NextResponse(script);
    if retry && r.ack == WAIT && attempts > 1 then FinalAnswer(RestOf(script), attempts - 1, retry)
    else (r, RestOf(script))
  }

  /** The state of the target once the host has read the acknowledgement `r`. */
  function Answered(dp: Dp, r: Response, rest: seq<Response>, ap: bool, read: bool, register: nat): Board
    requires dp.window > 0
  {
    var a := AnswerWith(dp, r, rest, ap, read, register);
    a.(link := a.link.next)
  }

  /** A request packet, the turn of the line, and the three clocks of the acknowledgement. */
  lemma RequestAndAck(b: Board, state: SwdioDriveState, ap: bool, read: bool, register: nat)
    requires b.dp.window > 0 && register < 4 && NextResponse(b.script).ack < 8
    requires if state == DRIVE then b.link == Idle else b.link == TurnToHost
    ensures var requested := Clocked(Turned(state, DRIVE, b), Frame(ap, read, register));
      var answering := Turned(DRIVE, FLOAT, requested);
      && FloatedFor(answering, 3) == Answered(b.dp, NextResponse(b.script), RestOf(b.script), ap, read, register)
      && FromBits(Sampled(answering, 3)) == NextResponse(b.script).ack
  {
    TurnedToDrive(b, state);
    RequestUnderstood(b.(link := Idle), ap, read, register);
    TurnedToTarget(b.(link := TurnToTarget(ap, read, register)), ap, read, register);
    AckPhase(Answer(b, ap, read, register));
  }

  lemma TurnedToDrive(b: Board, state: SwdioDriveState)
    requires b.dp.window > 0
    requires if state == DRIVE then b.link == Idle else b.link == TurnToHost
    ensures Turned(state, DRIVE, b) == b.(link := Idle)
  {}

  lemma TurnedToTarget(b: Board, ap: bool, read: bool, register: nat)
    requires b.dp.window > 0 && b.link == TurnToTarget(ap, read, register)
    ensures Turned(DRIVE, FLOAT, b) == Answer(b, ap, read, register)
  {}

  /** The outcome of a transfer: the result, the word at the host, and the target's state. */
  datatype Transfer = Transfer(result: Ack, data: Word, dp: Dp, script: seq<Response>)

  /** A read: nothing happens unless the request is acknowledged; garbled data are reported. */
  function ReadTransfer(dp: Dp, script: seq<Response>, ap: bool, register: nat, data: Word, retry: bool): Transfer
    requires dp.window > 0
  {
    var (r, rest) := FinalAnswer(script, MAX_ATTEMPTS, retry);
    if r.ack != OK then Transfer(r.ack, data, dp, rest)
    else
      var (v, after) := ReadRegister(dp, ap, register);
      if r.garbled then Transfer(PARITY_FAIL, r.noise, after, rest) else Transfer(OK, v, after, rest)
  }

  /** A write takes effect exactly when the request is acknowledged. */
  function WriteTransfer(dp: Dp, script: seq<Response>, ap: bool, register: nat, data: Word, retry: bool): Transfer
    requires dp.window > 0
  {
    var (r, rest) := FinalAnswer(script, MAX_ATTEMPTS, retry);
    if r.ack != OK then Transfer(r.ack, data, dp, rest)
    else Transfer(OK, data, WriteRegister(dp, ap, register, data), rest)
  }

  /** The `k`th answer of a script; what is not scripted is an OK. */
  function NthResponse(script: seq<Response>, k: nat): Response {
    if k < |script| then script[k] else NextResponse([])
  }

  /** With retries the answer that counts is the first one that is not WAIT, or the last of the
      attempts; it uses up the answers before it and no more. */
  lemma {:induction false} FirstThatDoesNotWait(script: seq<Response>, attempts: nat, k: nat)
    requires k < attempts && (forall j | 0 <= j < k :: NthResponse(script, j).ack == WAIT)
    requires NthResponse(script, k).ack != WAIT || k == attempts - 1
    ensures FinalAnswer(script, attempts, true)
            == (NthResponse(script, k), if k < |script| then script[k + 1..] else [])
    decreases k
  {
    if k > 0 {
      assert NthResponse(script, 0).ack == WAIT;
      var rest := RestOf(script);
      forall j | 0 <= j < k ensures NthResponse(rest, j) == NthResponse(script, j + 1) {}
      FirstThatDoesNotWait(rest, attempts - 1, k - 1);
    }
  }

  /** A failed transfer has used up a scripted answer, and no transfer adds any. */
  lemma {:induction false} FinalAnswerShrinks(script: seq<Response>, attempts: nat, retry: bool)
    requires attempts > 0 && ValidScript(script)
    ensures var (r, rest) := FinalAnswer(script, attempts, retry);
      && ValidScript(rest) && r.ack < 8 && |rest| <= |script|
      && (r.ack != OK || r.garbled ==> |rest| < |script|)
      && (StartsOk(script, 1) ==> r.ack == OK && !r.garbled && rest == Drop(script, 1))
    decreases attempts
  {
    assert ValidScript(RestOf(script));
    if script != [] { assert script[0] in script; }
    if retry && NextResponse(script).ack == WAIT && attempts > 1 {
      FinalAnswerShrinks(RestOf(script), attempts - 1, retry);
    }
  }

  /** The data phase of an acknowledged write. */
  lemma WriteData(b: Board, dp: Dp, r: Response, rest: seq<Response>, ap: bool, register: nat, data: Word)
    requires dp.window > 0 && r.ack == OK && b == Answered(dp, r, rest, ap, false, register)
    ensures Clocked(Turned(FLOAT, DRIVE, b), LsbFirst(data, 32) + [Odd(LsbFirst(data, 32))])
            == Board(Idle, WriteRegister(dp, ap, register, data), rest)
  {
    hide Clocked, LsbFirst, Odd, Parity, WriteRegister;
    ParityOfLsbFirst(data);
    ReceivePhase(b.(link := Receiving(ap, register, [])), ap, register, data);
  }

  /** The data phase of an acknowledged read: the word that the host spells, and whether its parity
      agrees. */
  lemma ReadData(b: Board, dp: Dp, r: Response, rest: seq<Response>, ap: bool, register: nat)
    requires dp.window > 0 && r.ack == OK && b == Answered(dp, r, rest, ap, true, register)
    ensures var (v, after) := ReadRegister(dp, ap, register);
      var bits := Sampled(b, 33);
      && FloatedFor(b, 33) == Board(TurnToHost, after, rest) && |bits| == 33
      && FromBits(bits[..32]) == (if r.garbled then r.noise else v)
      && (Parity(FromBits(bits[..32])) == bits[32] <==> !r.garbled)
  {
    hide FloatedFor, Sampled, LsbFirst, Odd, Parity, FromBits, CtrlStat;
    var bits := b.link.bits;
    SendPhase(b, bits);
    DataPhase(b, bits);
    assert bits == DataBits(ReadRegister(dp, ap, register).0) || bits == LsbFirst(r.noise, 32) + [!Parity(r.noise)];
  }

  class SerialWire {
    const programmer: ProgrammerStm32l4xx
    /** The results of all transfers so far. */
    ghost var results: seq<Ack>

    /** Between transfers the target is idle, or waits for the host to take the line back. */
    ghost predicate Ready()
      reads this, programmer
    {
      && programmer.Valid() && ValidScript(programmer.board.script)
      && if programmer.currentSwdioDriveState == DRIVE then programmer.board.link == Idle
         else programmer.board.link == TurnToHost
    }

    constructor (programmer: ProgrammerStm32l4xx)
      ensures this.programmer == programmer && results == []
    {
      this.programmer := programmer;
      results := [];
    }

    /** One request and its acknowledgement. */
    method Attempt(command: nat, ghost ap: bool, ghost read: bool, ghost register: nat) returns (ack: nat)
      requires Ready() && command < 0x100 && register < 4 && LsbFirst(command, 8) == Frame(ap, read, register)
      modifies programmer
      ensures programmer.Valid() && programmer.currentSwdioDriveState == FLOAT
      ensures var r := NextResponse(old(programmer.board.script));
        && ack == r.ack < 8 && programmer.board.script == RestOf(old(programmer.board.script))
        && (ack != OK ==> Ready() && programmer.board.dp == old(programmer.board.dp))
        && (ack == OK ==>
              programmer.board == Answered(old(programmer.board.dp), r, programmer.board.script, ap, read, register))
    {
      FinalAnswerShrinks(programmer.board.script, 1, false);
      RequestAndAck(programmer.board, programmer.currentSwdioDriveState, ap, read, register);
      programmer.SendNoParity(command, 8);
      ack := programmer.ReceiveNoParity(3);
    }

    /** The pause before a request is repeated. */
    method IdleBetween(numCycles: nat)
      requires Ready() && numCycles > 0
      modifies programmer
      ensures Ready() && programmer.board.dp == old(programmer.board.dp)
      ensures programmer.board.script == old(programmer.board.script)
    {
      IdleAgain(programmer.board, programmer.currentSwdioDriveState, numCycles);
      programmer.IdleCycles(numCycles);
    }

    /** `send_command`: asks again after a WAIT, idling a little longer each time. */
    method SendCommand(command: nat, retry: bool, ghost ap: bool, ghost read: bool, ghost register: nat)
      returns (ack: nat)
      requires Ready() && command < 0x100 && register < 4 && LsbFirst(command, 8) == Frame(ap, read, register)
      modifies programmer
      ensures programmer.Valid() && ValidScript(programmer.board.script)
      ensures var (r, rest) := FinalAnswer(old(programmer.board.script), MAX_ATTEMPTS, retry);
        && ack == r.ack && programmer.board.script == rest
        && (ack != OK ==> Ready() && programmer.board.dp == old(programmer.board.dp))
        && (ack == OK ==> programmer.currentSwdioDriveState == FLOAT
                          && programmer.board == Answered(old(programmer.board.dp), r, rest, ap, read, register))
    {
      ack := 0;
      var attemptCount := 0;
      ghost var script0 := programmer.board.script;
      ghost var final := FinalAnswer(script0, MAX_ATTEMPTS, retry);
      while attemptCount < MAX_ATTEMPTS
        invariant Ready() && attemptCount <= MAX_ATTEMPTS && programmer.board.dp == old(programmer.board.dp)
        invariant attemptCount < MAX_ATTEMPTS ==>
                    final == FinalAnswer(programmer.board.script, MAX_ATTEMPTS - attemptCount, retry)
        invariant attemptCount == MAX_ATTEMPTS ==>
                    ack == final.0.ack == WAIT && programmer.board.script == final.1
      {
        FinalAnswerShrinks(programmer.board.script, 1, false);
        ack := Attempt(command, ap, read, register);
        if !(retry && ack == WAIT) { return; }
        IdleBetween(2 * attemptCount + 8);
        attemptCount := attemptCount + 1;
      }
    }

    /** `read`: the request, then 32 bits and their parity if it was acknowledged. `data` is the
        caller's variable, which keeps its value when nothing arrives. */
    method Read(command: nat, data: Word, retry: bool, ghost ap: bool, ghost register: nat)
      returns (result: Ack, received: Word)
      requires Ready() && command < 0x100 && register < 4 && LsbFirst(command, 8) == Frame(ap, true, register)
      modifies this`results, programmer
      ensures Ready() && results == old(results) + [result]
      ensures Transfer(result, received, programmer.board.dp, programmer.board.script)
              == ReadTransfer(old(programmer.board.dp), old(programmer.board.script), ap, register, data, retry)
    {
      hide FinalAnswer, Answered, Clocked, FloatedFor, Sampled, LsbFirst, Frame, ReadRegister, FromBits, Parity;
      ghost var (r, rest) := FinalAnswer(programmer.board.script, MAX_ATTEMPTS, retry);
      ghost var dp := programmer.board.dp;
      result := SendCommand(command, retry, ap, true, register);
      received := data;
      if result == OK {
        ReadData(programmer.board, dp, r, rest, ap, register);
        var matches;
        received, matches := programmer.Receive(32);
        if !matches { result := PARITY_FAIL; }
      }
      results := results + [result];
    }

    /** `write`. */
    method Write(command: nat, data: Word, retry: bool, ghost ap: bool, ghost register: nat) returns (result: Ack)
      requires Ready() && command < 0x100 && register < 4 && LsbFirst(command, 8) == Frame(ap, false, register)
      modifies this`results, programmer
      ensures Ready() && results == old(results) + [result]
      ensures Transfer(result, data, programmer.board.dp, programmer.board.script)
              == WriteTransfer(old(programmer.board.dp), old(programmer.board.script), ap, register, data, retry)
    {
      hide FinalAnswer, Answered, Turned, Clocked, LsbFirst, Frame, WriteRegister, FromBits, Odd;
      ghost var (r, rest) := FinalAnswer(programmer.board.script, MAX_ATTEMPTS, retry);
      ghost var dp := programmer.board.dp;
      result := SendCommand(command, retry, ap, false, register);
      if result == OK {
        WriteData(programmer.board, dp, r, rest, ap, register, data);
        programmer.Send(data, 32);
      }
      results := results + [result];
    }

    /** `swd_ap_read` and `swd_dp_read`. */
    method SwdRead(ap: bool, addr: nat, data: Word, retry: bool := true) returns (result: Ack, received: Word)
      requires Ready()
      modifies this`results, programmer
      ensures Ready() && results == old(results) + [result]
      ensures Transfer(result, received, programmer.board.dp, programmer.board.script)
              == ReadTransfer(old(programmer.board.dp), old(programmer.board.script), ap, RegisterOf(addr), data, retry)
    {
      WordWidths();
      var command := CreateCommand(ap, true, addr);
      result, received := Read(command, data, retry, ap, RegisterOf(addr));
    }

    /** `swd_ap_write` and `swd_dp_write`. */
    method SwdWrite(ap: bool, addr: nat, data: Word, retry: bool := true) returns (result: Ack)
      requires Ready()
      modifies this`results, programmer
      ensures Ready() && results == old(results) + [result]
      ensures Transfer(result, data, programmer.board.dp, programmer.board.script)
              == WriteTransfer(old(programmer.board.dp), old(programmer.board.script), ap, RegisterOf(addr), data,
                               retry)
    {
      WordWidths();
      var command := CreateCommand(ap, false, addr);
      result := Write(command, data, retry, ap, RegisterOf(addr));
    }
  }

  /** What a host makes of the 33 bits of a read: the word and a matching parity, unless garbled. */
  lemma DataPhase(b: Board, bits: seq<bool>)
    requires b.dp.window > 0 && b.link == Sending(bits) && |bits| == 33
    ensures Sampled(b, 33) == bits && FloatedFor(b, 33) == b.(link := TurnToHost)
    ensures forall v: Word :: bits == DataBits(v) ==> FromBits(bits[..32]) == v && Accepted(bits)
    ensures forall v: Word :: bits == LsbFirst(v, 32) + [!Parity(v)] ==> FromBits(bits[..32]) == v && !Accepted(bits)
  {
    SendPhase(b, bits);
    forall v: Word | bits == DataBits(v) || bits == LsbFirst(v, 32) + [!Parity(v)]
      ensures FromBits(bits[..32]) == v
    {
      ParityOfLsbFirst(v);
      assert bits[..32] == LsbFirst(v, 32);
    }
  }

  /** Idle cycles give the line back to the host and change nothing else. */
  lemma IdleAgain(b: Board, state: SwdioDriveState, n: nat)
    requires b.dp.window > 0 && n > 0
    requires if state == DRIVE then b.link == Idle else b.link == TurnToHost
    ensures AfterIdle(state, b, n) == b.(link := Idle)
  {
    TurnedToDrive(b, state);
    IdleClocks(b.(link := Idle), Zeros(n));
  }
}
