/** Whole runs of programmer calls, seen from the wires: which levels the host drives at rising edges
    of SWCLK, and how many clocks it lets the line float. */
module ProgrammerRuns {
  import opened Bits
  import opened Wire
  import opened Programmer

  datatype Call =
    | SendPlain(data: Word, bits: nat)
    | SendWithParity(data: Word, bits: nat)
    | ReceivePlain(bits: nat)
    | ReceiveWithParity(bits: nat)
    | Idling(cycles: nat)
    | Turning(state: SwdioDriveState)

  predicate ValidCall(call: Call) {
    call.Idling? || call.Turning? || call.bits <= 32
  }

  /** What a call should drive: the bits from the least significant one up, and their parity. */
  function BitsToDrive(call: Call): seq<bool> {
    match call
    case SendPlain(data, n) => LsbFirst(data, n)
    case SendWithParity(data, n) => LsbFirst(data, n) + [Odd(LsbFirst(data, n))]
    case ReceivePlain(n) => []
    case ReceiveWithParity(n) => []
    case Idling(n) => Zeros(n)
    case Turning(state) => []
  }

  function BitsToSample(call: Call): nat {
    match call
    case ReceivePlain(n) => n
    case ReceiveWithParity(n) => n + 1
    case _ => 0
  }

  /** The direction in which a call leaves the line. */
  function DirectionAfter(from: SwdioDriveState, call: Call): SwdioDriveState {
    match call
    case SendPlain(data, n) => DRIVE
    case SendWithParity(data, n) => DRIVE
    case ReceivePlain(n) => FLOAT
    case ReceiveWithParity(n) => FLOAT
    case Idling(n) => if n == 0 then from else DRIVE
    case Turning(state) => state
  }

  function DirectionAfterAll(from: SwdioDriveState, calls: seq<Call>): SwdioDriveState {
    if calls == [] then from else DirectionAfter(DirectionAfterAll(from, calls[..|calls| - 1]), calls[|calls| - 1])
  }

  function AllBitsToDrive(calls: seq<Call>): seq<bool> {
    if calls == [] then [] else AllBitsToDrive(calls[..|calls| - 1]) + BitsToDrive(calls[|calls| - 1])
  }

  function AllBitsToSample(calls: seq<Call>): nat {
    if calls == [] then 0 else AllBitsToSample(calls[..|calls| - 1]) + BitsToSample(calls[|calls| - 1])
  }

  /** How often the direction of the line changes. */
  function DirectionChanges(from: SwdioDriveState, calls: seq<Call>): nat {
    if calls == [] then 0
    else
      var before := DirectionAfterAll(from, calls[..|calls| - 1]);
      DirectionChanges(from, calls[..|calls| - 1])
      + if DirectionAfter(before, calls[|calls| - 1]) == before then 0 else 1
  }

  // ----- what the edges show

  function DrivenLevels(edges: seq<Edge>): seq<bool> {
    if edges == [] then []
    else
      var e := edges[|edges| - 1];
      DrivenLevels(edges[..|edges| - 1]) + if e.driven then [e.level] else []
  }

  function FloatingCount(edges: seq<Edge>): nat {
    if edges == [] then 0
    else FloatingCount(edges[..|edges| - 1]) + if edges[|edges| - 1].driven then 0 else 1
  }

  lemma {:induction false} EdgesAppend(a: seq<Edge>, b: seq<Edge>)
    ensures DrivenLevels(a + b) == DrivenLevels(a) + DrivenLevels(b)
    ensures FloatingCount(a + b) == FloatingCount(a) + FloatingCount(b)
  {
    if b == [] {
      assert a + b == a;
    } else {
      assert (a + b)[..|a + b| - 1] == a + b[..|b| - 1];
      EdgesAppend(a, b[..|b| - 1]);
    }
  }

  lemma {:induction false} DrivenEdgesShow(bits: seq<bool>)
    ensures DrivenLevels(DrivenEdges(bits)) == bits && FloatingCount(DrivenEdges(bits)) == 0
  {
    if bits != [] {
      var n := |bits| - 1;
      DrivenEdgesShow(bits[..n]);
      assert DrivenEdges(bits)[..n] == DrivenEdges(bits[..n]);
    }
  }

  lemma {:induction false} FloatingEdgesShow(bits: seq<bool>)
    ensures DrivenLevels(FloatingEdges(bits)) == [] && FloatingCount(FloatingEdges(bits)) == |bits|
  {
    if bits != [] {
      var n := |bits| - 1;
      FloatingEdgesShow(bits[..n]);
      assert FloatingEdges(bits)[..n] == FloatingEdges(bits[..n]);
    }
  }

  lemma OneEdge(e: Edge)
    ensures DrivenLevels([e]) == if e.driven then [e.level] else []
    ensures FloatingCount([e]) == if e.driven then 0 else 1
  {
    assert [e][..0] == [];
  }

  lemma TurningEdges(from: SwdioDriveState, want: SwdioDriveState, b: Board)
    ensures DrivenLevels(TurnEdges(from, want, b)) == []
    ensures FloatingCount(TurnEdges(from, want, b)) == if want == from then 0 else 1
  {
    OneEdge(Edge(false, Level(b)));
  }

  /** A direction change, if there is one, and then driven edges. */
  lemma DrivingEdges(before: seq<Edge>, after: seq<Edge>, from: SwdioDriveState, b: Board, bits: seq<bool>)
    returns (edges: seq<Edge>)
    requires after == before + TurnEdges(from, DRIVE, b) + DrivenEdges(bits)
    ensures after == before + edges && DrivenLevels(edges) == bits
    ensures FloatingCount(edges) == if from == DRIVE then 0 else 1
  {
    hide DrivenEdges, FloatingEdges, TurnEdges, DrivenLevels, FloatingCount;
    edges := TurnEdges(from, DRIVE, b) + DrivenEdges(bits);
    DrivenEdgesShow(bits);
    TurningEdges(from, DRIVE, b);
    EdgesAppend(TurnEdges(from, DRIVE, b), DrivenEdges(bits));
  }

  /** A direction change, if there is one, and then floating edges. */
  lemma SamplingEdges(before: seq<Edge>, after: seq<Edge>, from: SwdioDriveState, b: Board, bits: seq<bool>)
    returns (edges: seq<Edge>)
    requires after == before + TurnEdges(from, FLOAT, b) + FloatingEdges(bits)
    ensures after == before + edges && DrivenLevels(edges) == []
    ensures FloatingCount(edges) == |bits| + if from == FLOAT then 0 else 1
  {
    hide DrivenEdges, FloatingEdges, TurnEdges, DrivenLevels, FloatingCount;
    edges := TurnEdges(from, FLOAT, b) + FloatingEdges(bits);
    FloatingEdgesShow(bits);
    TurningEdges(from, FLOAT, b);
    EdgesAppend(TurnEdges(from, FLOAT, b), FloatingEdges(bits));
  }

  /** Idling: nothing happens for no cycles. */
  lemma IdlingEdges(before: seq<Edge>, after: seq<Edge>, from: SwdioDriveState, b: Board, n: nat)
    returns (edges: seq<Edge>)
    requires after == before + IdleEdges(from, b, n)
    ensures after == before + edges && DrivenLevels(edges) == Zeros(n)
    ensures FloatingCount(edges) == if n == 0 || from == DRIVE then 0 else 1
  {
    hide TurnEdges, DrivenEdges, DrivenLevels, FloatingCount;
    edges := IdleEdges(from, b, n);
    if n > 0 {
      assert before + (TurnEdges(from, DRIVE, b) + DrivenEdges(Zeros(n)))
          == before + TurnEdges(from, DRIVE, b) + DrivenEdges(Zeros(n));
      edges := DrivingEdges(before, after, from, b, Zeros(n));
    } else {
      NoEdges();
    }
  }

  lemma NoEdges()
    ensures DrivenLevels([]) == [] && FloatingCount([]) == 0
  {}

  /** The edges of one call. */
  ghost predicate Shows(edges: seq<Edge>, from: SwdioDriveState, call: Call) {
    && DrivenLevels(edges) == BitsToDrive(call)
    && FloatingCount(edges) == BitsToSample(call) + if DirectionAfter(from, call) == from then 0 else 1
  }

  method PerformCall(p: ProgrammerStm32l4xx, call: Call) returns (ghost edges: seq<Edge>)
    requires p.Valid() && ValidCall(call)
    modifies p
    ensures p.Valid() && p.edges == old(p.edges) + edges
    ensures p.currentSwdioDriveState == DirectionAfter(old(p.currentSwdioDriveState), call)
    ensures Shows(edges, old(p.currentSwdioDriveState), call)
  {
    hide TurnEdges, DrivenEdges, FloatingEdges, IdleEdges, AfterIdle, DrivenLevels, FloatingCount, Turned, Clocked,
         FloatedFor, LsbFirst, Odd;
    ghost var from, b, before := p.currentSwdioDriveState, p.board, p.edges;
    match call {
      case SendPlain(data, n) =>
        p.SendNoParity(data, n);
        edges := DrivingEdges(before, p.edges, from, b, LsbFirst(data, n));
      case SendWithParity(data, n) =>
        p.Send(data, n);
        edges := DrivingEdges(before, p.edges, from, b, LsbFirst(data, n) + [Odd(LsbFirst(data, n))]);
      case ReceivePlain(n) =>
        var data := p.ReceiveNoParity(n);
        edges := SamplingEdges(before, p.edges, from, b, Sampled(Turned(from, FLOAT, b), n));
      case ReceiveWithParity(n) =>
        var data, matches := p.Receive(n);
        edges := SamplingEdges(before, p.edges, from, b, Sampled(Turned(from, FLOAT, b), n + 1));
      case Idling(n) =>
        p.IdleCycles(n);
        edges := IdlingEdges(before, p.edges, from, b, n);
      case Turning(state) =>
        p.Turnaround(state);
        edges := TurnEdges(from, state, b);
        TurningEdges(from, state, b);
    }
  }

  /** The edges of several calls. */
  ghost predicate AllShow(edges: seq<Edge>, from: SwdioDriveState, calls: seq<Call>) {
    && DrivenLevels(edges) == AllBitsToDrive(calls)
    && FloatingCount(edges) == AllBitsToSample(calls) + DirectionChanges(from, calls)
  }

  lemma AllShowMore(edges: seq<Edge>, more: seq<Edge>, from: SwdioDriveState, calls: seq<Call>, call: Call)
    requires AllShow(edges, from, calls) && Shows(more, DirectionAfterAll(from, calls), call)
    ensures AllShow(edges + more, from, calls + [call])
  {
    EdgesAppend(edges, more);
    assert (calls + [call])[..|calls|] == calls;
  }

  /** Any sequence of calls, with any target at the other end: at the rising edges at which the host
      drives the line, it drives exactly the bits to be sent, in order; every other rising edge
      samples a bit or changes the direction of the line, one clock for each. */
  method Perform(p: ProgrammerStm32l4xx, calls: seq<Call>) returns (ghost edges: seq<Edge>)
    requires p.Valid() && forall call <- calls :: ValidCall(call)
    modifies p
    ensures p.Valid() && p.edges == old(p.edges) + edges
    ensures p.currentSwdioDriveState == DirectionAfterAll(old(p.currentSwdioDriveState), calls)
    ensures DrivenLevels(edges) == AllBitsToDrive(calls)
    ensures FloatingCount(edges) == AllBitsToSample(calls) + DirectionChanges(old(p.currentSwdioDriveState), calls)
  {
    edges := [];
    ghost var from := p.currentSwdioDriveState;
    for i := 0 to |calls|
      invariant p.Valid() && p.edges == old(p.edges) + edges
      invariant p.currentSwdioDriveState == DirectionAfterAll(from, calls[..i])
      invariant AllShow(edges, from, calls[..i])
    {
      ghost var more := PerformCall(p, calls[i]);
      AllShowMore(edges, more, from, calls[..i], calls[i]);
      assert calls[..i + 1] == calls[..i] + [calls[i]];
      assert old(p.edges) + edges + more == old(p.edges) + (edges + more);
      edges := edges + more;
    }
    assert calls[..|calls|] == calls;
  }
}
