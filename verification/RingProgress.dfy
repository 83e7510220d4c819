/** What each call of the shared ring buffer comes to, under every schedule: how much it supplies,
    consumes or pops, when it may come away empty-handed, and that it needs only a bounded number of
    steps of its own, whatever the other side does. */
module RingProgress {
  import opened RingArithmetic
  import opened RingProtocol

  /** The state after the first `k` steps of a schedule. */
  ghost function After<T>(c: Config, s: State<T>, steps: seq<Step<T>>, k: nat): State<T>
    requires ValidConfig(c) && Shaped(c, s.pages) && k <= |steps|
  {
    Run(c, s, steps[..k])
  }

  lemma AfterNext<T>(c: Config, s: State<T>, steps: seq<Step<T>>, k: nat)
    requires ValidConfig(c) && Initial(c, s) && k < |steps|
    ensures After(c, s, steps, k + 1) == Do(c, After(c, s, steps, k), steps[k])
    ensures Inv(c, After(c, s, steps, k)) && Inv(c, After(c, s, steps, k + 1))
  {
    hide Do, Inv;
    assert steps[..k + 1][..k] == steps[..k];
    RunKeepsInv(c, s, steps[..k]);
    RunKeepsInv(c, s, steps[..k + 1]);
  }

  /** How many positions from `from` on the producer has dropped. */
  function Drops(fates: seq<Fate>, from: nat): nat {
    if |fates| <= from then 0
    else Drops(fates[..|fates| - 1], from) + if fates[|fates| - 1] == Dropped then 1 else 0
  }

  /** How many positions from `from` on the consumer has taken. */
  function Taken(fates: seq<Fate>, from: nat): nat {
    if |fates| <= from then 0
    else Taken(fates[..|fates| - 1], from) + if fates[|fates| - 1] == Dropped then 0 else 1
  }

  lemma {:induction false} FatesRepeat(fates: seq<Fate>, from: nat, f: Fate, n: nat)
    requires from <= |fates|
    ensures Drops(fates + Repeat(f, n), from) == Drops(fates, from) + if f == Dropped then n else 0
    ensures Taken(fates + Repeat(f, n), from) == Taken(fates, from) + if f == Dropped then 0 else n
  {
    if n == 0 {
      assert fates + Repeat(f, 0) == fates;
    } else {
      assert (fates + Repeat(f, n))[..|fates| + n - 1] == fates + Repeat(f, n - 1);
      FatesRepeat(fates, from, f, n - 1);
    }
  }

  lemma {:induction false} FateAt(fates: seq<Fate>, from: nat, p: nat)
    requires from <= p < |fates|
    ensures Drops(fates, from) == 0 ==> fates[p] != Dropped
    ensures Taken(fates, from) == 0 ==> fates[p] == Dropped
  {
    if p < |fates| - 1 { FateAt(fates[..|fates| - 1], from, p); }
  }

  // ----- supply

  /** What a supply of `n` elements is to take: what there is room for on the page and, when old elements
      have priority, in the ring. `s` is the state at the call. */
  ghost function SupplyShare<T>(c: Config, s: State<T>, n: nat): nat
    requires ValidConfig(c) && s.read <= s.write <= s.read + Capacity(c)
  {
    var onPage := Min(c.pageSize - s.write % c.pageSize, n);
    if c.prioritizeOld then Min(s.read + Capacity(c) - s.write, onPage) else onPage
  }

  /** By how much the ring would be exceeded. */
  ghost function Excess<T>(c: Config, s: State<T>, n: nat): nat {
    if s.write + n > s.read + Capacity(c) then s.write + n - (s.read + Capacity(c)) else 0
  }

  /** A supply that was called at `s0` is under way at `r`. */
  ghost predicate Supplying<T>(c: Config, s0: State<T>, src: seq<T>, r: State<T>)
    requires ValidConfig(c) && s0.read <= s0.write <= s0.read + Capacity(c)
  {
    var share := SupplyShare(c, s0, |src|);
    && r.write == s0.write && r.stream == s0.stream && s0.read <= r.read
    && match r.producer
       case SupplyReadLoaded(x, read) => x == src && read == s0.read && Drops(r.fates, s0.read) == 0
       case MakingRoom(x, count, read, write) =>
         && x == src && count == share > 0 && read == s0.read && write == s0.write && !c.prioritizeOld
         && Excess(c, s0, count) > 0 && Drops(r.fates, s0.read) == 0
       case Filling(x, count, write, _) =>
         x == src && count == share > 0 && write == s0.write && Drops(r.fates, s0.read) == Excess(c, s0, count)
       case _ => false
  }

  /** The consumer has moved the read pointer since it was at `read`. */
  ghost predicate Overtaken<T>(r: State<T>, read: nat) {
    read < r.read == |r.fates| && r.fates[read] != Dropped
  }

  /** A supply that was called at `s0` has ended at `r`, with the step from `e`, having published `n`
      elements. */
  ghost predicate Supplied<T>(c: Config, s0: State<T>, src: seq<T>, e: State<T>, r: State<T>, n: nat)
    requires ValidConfig(c) && s0.read <= s0.write <= s0.read + Capacity(c)
  {
    && n <= |src| && r.stream == s0.stream + src[..n]
    && Drops(r.fates, s0.read) == Excess(c, s0, n)
    && (n == SupplyShare(c, s0, |src|)
        || (n == 0 && !c.prioritizeOld && Excess(c, s0, SupplyShare(c, s0, |src|)) > 0 && Overtaken(e, s0.read)))
  }

  /** A step that leaves the producer alone takes positions only, and changes neither the write pointer
      nor the stream. */
  lemma OtherSideSteps<T>(c: Config, s: State<T>, step: Step<T>, from: nat)
    requires Inv(c, s) && from <= s.read
    requires step.CallConsume? || step.ConsumeLoadsWrite? || step.ConsumeCopies? || step.ConsumeCommits?
             || step.CallPop? || step.PopLoadsWrite? || step.PopCommits?
    ensures var r := Do(c, s, step);
      && r.producer == s.producer && r.write == s.write && r.stream == s.stream && s.read <= r.read
      && Drops(r.fates, from) == Drops(s.fates, from)
  {
    hide Contents, ProducerOk, History, Drops;
    match step
    case ConsumeCommits =>
      if AllCopied(s) && s.read == s.consumer.read {
        PointerAdvanced(c, s.read, s.consumer.count);
        FatesRepeat(s.fates, from, Delivered, s.consumer.count);
      }
    case PopCommits =>
      if s.consumer.Popping? && s.read == s.consumer.read {
        PointerAdvanced(c, s.read, 1);
        FatesRepeat(s.fates, from, Popped, 1);
      }
    case _ =>
  }

  lemma SupplyLoads<T>(c: Config, s0: State<T>, src: seq<T>, e: State<T>)
    requires ValidConfig(c) && s0.read <= s0.write <= s0.read + Capacity(c) && Inv(c, e)
    requires Supplying(c, s0, src, e) && e.producer.SupplyReadLoaded?
    ensures var r := Do(c, e, SupplyLoadsWrite);
      Supplying(c, s0, src, r) || (r.producer.NoSupply? && Supplied(c, s0, src, e, r, 0))
  {
    hide Contents, History, ConsumerOk, Drops;
    assert src[..0] == [];
    assert Capacity(c) >= c.pageSize by { PageInRing(c); }
  }

  lemma PageInRing(c: Config)
    requires ValidConfig(c)
    ensures Capacity(c) >= c.pageSize
  {
    assert c.numPages * c.pageSize == (c.numPages - 1) * c.pageSize + c.pageSize;
  }

  lemma SupplyMakes<T>(c: Config, s0: State<T>, src: seq<T>, e: State<T>)
    requires ValidConfig(c) && s0.read <= s0.write <= s0.read + Capacity(c) && Inv(c, e)
    requires Supplying(c, s0, src, e) && e.producer.MakingRoom?
    ensures var r := Do(c, e, SupplyMakesRoom);
      Supplying(c, s0, src, r) || (r.producer.NoSupply? && Supplied(c, s0, src, e, r, 0))
  {
    hide Contents, History, ConsumerOk, Drops;
    assert src[..0] == [];
    if e.read == s0.read {
      FatesRepeat(e.fates, s0.read, Dropped, Excess(c, s0, e.producer.count));
    } else {
      FateAt(e.fates, s0.read, s0.read);
    }
  }

  lemma SupplyPublishesAll<T>(c: Config, s0: State<T>, src: seq<T>, e: State<T>)
    requires ValidConfig(c) && s0.read <= s0.write <= s0.read + Capacity(c) && Inv(c, e)
    requires Supplying(c, s0, src, e) && AllStored(e)
    ensures var r := Do(c, e, SupplyPublishes);
      r.producer.NoSupply? && Supplied(c, s0, src, e, r, SupplyShare(c, s0, |src|))
  {
    hide Contents, History, ConsumerOk, Drops, Publish;
    Published(c, e);
  }

  /** One step of a schedule while a supply is under way: it goes on or ends. */
  lemma SupplyStep<T>(c: Config, s0: State<T>, src: seq<T>, e: State<T>, step: Step<T>) returns (n: nat)
    requires ValidConfig(c) && s0.read <= s0.write <= s0.read + Capacity(c) && Inv(c, e) && Inv(c, Do(c, e, step))
    requires Supplying(c, s0, src, e)
    ensures var r := Do(c, e, step);
      Supplying(c, s0, src, r) || (r.producer.NoSupply? && Supplied(c, s0, src, e, r, n))
  {
    hide Contents, History, ConsumerOk, Drops, Publish, LoadWriteForSupply, MakeRoom, Supplied, SupplyShare, Excess,
         AllStored;
    n := 0;
    match step
    case CallSupply(_) =>
    case SupplyLoadsWrite => if e.producer.SupplyReadLoaded? { SupplyLoads(c, s0, src, e); } else { Idle(c, e); }
    case SupplyMakesRoom => if e.producer.MakingRoom? { SupplyMakes(c, s0, src, e); } else { Idle(c, e); }
    case SupplyTears(i, value) =>
    case SupplyCopies(i) =>
    case SupplyPublishes =>
      if AllStored(e) {
        SupplyPublishesAll(c, s0, src, e);
        n := SupplyShare(c, s0, |src|);
      } else {
        Idle(c, e);
      }
    case _ => OtherSideSteps(c, e, step, s0.read);
  }

  /** Steps that the producer is not ready for do nothing. */
  lemma Idle<T>(c: Config, e: State<T>)
    requires ValidConfig(c) && Shaped(c, e.pages)
    ensures !e.producer.SupplyReadLoaded? ==> Do(c, e, SupplyLoadsWrite) == e
    ensures !e.producer.MakingRoom? ==> Do(c, e, SupplyMakesRoom) == e
    ensures !AllStored(e) ==> Do(c, e, SupplyPublishes) == e
  {}

  /** A supply, from the step that calls it to the first state after it in which the producer is at rest
      again, under any schedule. It publishes as many elements as there is room for on the page and,
      when old elements have priority, in the ring; it drops exactly the elements by which the ring would
      be exceeded. It publishes nothing instead only when new elements have priority, room has to be made
      for them, and the consumer has moved the read pointer between the supply's load of it and its last
      step. */
  lemma SupplyOutcome<T>(c: Config, s: State<T>, steps: seq<Step<T>>, a: nat, z: nat, src: seq<T>) returns (n: nat)
    requires ValidConfig(c) && Initial(c, s) && a < z <= |steps| && steps[a] == CallSupply(src)
    requires After(c, s, steps, a).producer.NoSupply? && After(c, s, steps, z).producer.NoSupply?
    requires forall k | a < k < z :: !After(c, s, steps, k).producer.NoSupply?
    ensures var s0, e, r := After(c, s, steps, a), After(c, s, steps, z - 1), After(c, s, steps, z);
      && s0.read <= s0.write <= s0.read + Capacity(c)
      && n <= |src| && r.stream == s0.stream + src[..n]
      && Drops(r.fates, s0.read) == Excess(c, s0, n)
      && (n == SupplyShare(c, s0, |src|)
          || (n == 0 && !c.prioritizeOld && Excess(c, s0, SupplyShare(c, s0, |src|)) > 0 && Overtaken(e, s0.read)))
  {
    hide Do, Inv, Drops, SupplyShare, Excess, Overtaken;
    var s0 := After(c, s, steps, a);
    AfterNext(c, s, steps, a);
    SupplyBegins(c, s0, src);
    var k := a + 1;
    n := 0;
    while k < z
      invariant a < k <= z && s0.read <= s0.write <= s0.read + Capacity(c)
      invariant if k < z then Supplying(c, s0, src, After(c, s, steps, k))
                else Supplying(c, s0, src, After(c, s, steps, z))
                     || Supplied(c, s0, src, After(c, s, steps, z - 1), After(c, s, steps, z), n)
    {
      AfterNext(c, s, steps, k);
      n := SupplyStep(c, s0, src, After(c, s, steps, k), steps[k]);
      k := k + 1;
    }
  }

  lemma SupplyBegins<T>(c: Config, s0: State<T>, src: seq<T>)
    requires Inv(c, s0) && s0.producer.NoSupply?
    ensures s0.read <= s0.write <= s0.read + Capacity(c)
    ensures Supplying(c, s0, src, Do(c, s0, CallSupply(src)))
  {
    hide Contents, ProducerOk, ConsumerOk, History;
    assert Drops(s0.fates, s0.read) == 0;
  }

  // ----- consume

  /** What a call of `consume` is to return when its second load sees the write pointer at `write`: what is
      asked for and there, up to the end of the page. */
  ghost function ConsumeShare(c: Config, read: nat, write: nat, n: nat): nat
    requires ValidConfig(c) && read <= write
  {
    Min(write - read, Min(c.pageSize - read % c.pageSize, n))
  }

  /** The producer has moved the read pointer since it was at `read`. */
  ghost predicate Outrun<T>(r: State<T>, read: nat) {
    read < r.read == |r.fates| && r.fates[read] == Dropped
  }

  /** A call of `consume` made at `s0` is under way at `r`; after its second load, `write` is what that saw. */
  ghost predicate Consuming<T>(c: Config, s0: State<T>, n: nat, r: State<T>, write: nat)
    requires ValidConfig(c)
  {
    && s0.read <= r.read && r.chunks == s0.chunks && Taken(r.fates, s0.read) == 0
    && match r.consumer
       case ConsumeReadLoaded(x, read) => x == n && read == s0.read
       case Copying(count, read, _) =>
         s0.read <= write <= r.write && read == s0.read && count == ConsumeShare(c, s0.read, write, n) > 0
       case _ => false
  }

  /** The second load found nothing to return. */
  ghost predicate NothingThere<T>(s0: State<T>, n: nat, e: State<T>) {
    n == 0 || e.read == e.write == s0.read
  }

  /** A call of `consume` made at `s0` has ended at `r`, with the step from `e`. */
  ghost predicate Consumed<T>(c: Config, s0: State<T>, n: nat, e: State<T>, r: State<T>, write: nat)
    requires ValidConfig(c)
  {
    || (&& r.chunks == s0.chunks && Taken(r.fates, s0.read) == 0
        && (Outrun(e, s0.read) || (NothingThere(s0, n, e) && write == e.write)))
    || (&& s0.read <= write <= |r.stream| && 0 < ConsumeShare(c, s0.read, write, n) == Taken(r.fates, s0.read)
        && r.chunks == s0.chunks
                       + [Chunk(s0.read, r.stream[s0.read..s0.read + ConsumeShare(c, s0.read, write, n)])])
  }

  /** A step of the producer takes no position, and changes none of what consume has returned. */
  lemma ProducerSteps<T>(c: Config, s: State<T>, step: Step<T>, from: nat)
    requires Inv(c, s) && from <= s.read
    requires step.CallSupply? || step.SupplyLoadsWrite? || step.SupplyMakesRoom? || step.SupplyTears?
             || step.SupplyCopies? || step.SupplyPublishes?
    ensures var r := Do(c, s, step);
      && r.consumer == s.consumer && r.chunks == s.chunks && s.read <= r.read && s.write <= r.write
      && Taken(r.fates, from) == Taken(s.fates, from)
  {
    hide Contents, ConsumerOk, History, Taken, Publish;
    match step
    case SupplyMakesRoom =>
      if s.producer.MakingRoom? && s.read == s.producer.read {
        FatesRepeat(s.fates, from, Dropped, Excess(c, s, s.producer.count));
      }
    case SupplyPublishes => if AllStored(s) { Published(c, s); } else { Idle(c, s); }
    case _ =>
  }

  lemma ConsumeLoads<T>(c: Config, s0: State<T>, n: nat, e: State<T>, write: nat)
    requires ValidConfig(c) && Inv(c, e) && Consuming(c, s0, n, e, write) && e.consumer.ConsumeReadLoaded?
    ensures var r := Do(c, e, ConsumeLoadsWrite);
      Consuming(c, s0, n, r, e.write) || (r.consumer.NoConsume? && Consumed(c, s0, n, e, r, e.write))
  {
    hide Contents, History, ProducerOk, Taken;
  }

  /** What the compare-and-swap of `consume` does. */
  lemma Committed<T>(c: Config, s: State<T>)
    requires Inv(c, s) && AllCopied(s)
    ensures var k := s.consumer;
      && k.read + k.count <= |s.stream|
      && Commit(c, s) == if s.read != k.read then s.(consumer := NoConsume)
                         else s.(read := k.read + k.count, fates := s.fates + Repeat(Delivered, k.count),
                                 chunks := s.chunks + [Chunk(k.read, s.stream[k.read..k.read + k.count])],
                                 consumer := NoConsume)
  {
    hide Contents, ProducerOk, History;
    var k := s.consumer;
    PointerAdvanced(c, k.read, k.count);
    if s.read == k.read { GatherIsSlice(k.copied, k.count, s.stream, k.read); }
  }

  lemma ConsumeEnds<T>(c: Config, s0: State<T>, n: nat, e: State<T>, write: nat)
    requires ValidConfig(c) && Inv(c, e) && Consuming(c, s0, n, e, write) && AllCopied(e)
    ensures var r := Do(c, e, ConsumeCommits);
      e.consumer.Copying? && r.consumer.NoConsume? && Consumed(c, s0, n, e, r, write)
  {
    hide Contents, History, ProducerOk, ConsumerOk, Taken, ConsumeShare, Commit;
    Committed(c, e);
    if e.read == e.consumer.read {
      FatesRepeat(e.fates, s0.read, Delivered, e.consumer.count);
    } else {
      FateAt(e.fates, s0.read, s0.read);
    }
  }

  lemma ConsumeStep<T>(c: Config, s0: State<T>, n: nat, e: State<T>, step: Step<T>, write: nat)
    requires ValidConfig(c) && Inv(c, e) && Consuming(c, s0, n, e, write)
    ensures var r := Do(c, e, step);
      var now := if e.consumer.ConsumeReadLoaded? then e.write else write;
      Consuming(c, s0, n, r, now) || (r.consumer.NoConsume? && Consumed(c, s0, n, e, r, now))
    ensures !e.consumer.ConsumeReadLoaded? ==> !Do(c, e, step).consumer.ConsumeReadLoaded?
  {
    hide Contents, History, ProducerOk, Taken, AllCopied, Commit, LoadWriteForConsume, Consumed, ConsumeShare;
    match step
    case CallConsume(_) =>
    case ConsumeLoadsWrite =>
      if e.consumer.ConsumeReadLoaded? { ConsumeLoads(c, s0, n, e, write); } else { ConsumerIdle(c, e); }
    case ConsumeCopies(i) =>
    case ConsumeCommits => if AllCopied(e) { ConsumeEnds(c, s0, n, e, write); } else { ConsumerIdle(c, e); }
    case CallPop =>
    case PopLoadsWrite =>
    case PopCommits =>
    case _ => ProducerSteps(c, e, step, s0.read);
  }

  lemma ConsumerIdle<T>(c: Config, e: State<T>)
    requires ValidConfig(c) && Shaped(c, e.pages)
    ensures !e.consumer.ConsumeReadLoaded? ==> Do(c, e, ConsumeLoadsWrite) == e
    ensures !AllCopied(e) ==> Do(c, e, ConsumeCommits) == e
  {}

  /** A call of `consume`, from the step that makes it to the first state after it in which the consumer is
      at rest again, under any schedule. Its second load is step `b`. It returns what is asked for and was
      there at that load, up to the end of the page, and takes just that. It returns nothing instead only
      when nothing was asked for, the ring was empty at that load, or the producer has moved the read
      pointer between the call's load of it and its last step. */
  lemma ConsumeOutcome<T>(c: Config, s: State<T>, steps: seq<Step<T>>, a: nat, z: nat, n: nat) returns (b: nat)
    requires ValidConfig(c) && Initial(c, s) && a < z <= |steps| && steps[a] == CallConsume(n)
    requires After(c, s, steps, a).consumer.NoConsume? && After(c, s, steps, z).consumer.NoConsume?
    requires forall k | a < k < z :: !After(c, s, steps, k).consumer.NoConsume?
    ensures a < b < z && steps[b] == ConsumeLoadsWrite && After(c, s, steps, b).consumer.ConsumeReadLoaded?
    ensures var s0, second := After(c, s, steps, a), After(c, s, steps, b);
      var e, r := After(c, s, steps, z - 1), After(c, s, steps, z);
      && s0.read <= second.read <= second.write <= |r.stream|
      && var count := ConsumeShare(c, s0.read, second.write, n);
        || (&& count > 0 && Taken(r.fates, s0.read) == count
            && r.chunks == s0.chunks + [Chunk(s0.read, r.stream[s0.read..s0.read + count])])
        || (&& r.chunks == s0.chunks && Taken(r.fates, s0.read) == 0
            && (n == 0 || second.read == second.write || Outrun(e, s0.read)))
  {
    hide Do, Inv, Taken, ConsumeShare, Outrun, Extends;
    var s0 := After(c, s, steps, a);
    AfterNext(c, s, steps, a);
    ConsumeBegins(c, s0, n);
    var k := a + 1;
    b := a;
    var write := 0;
    while k < z
      invariant a < k <= z && a <= b < k
      invariant k < z ==> Consuming(c, s0, n, After(c, s, steps, k), write)
      invariant (b == a) == After(c, s, steps, k).consumer.ConsumeReadLoaded?
      invariant b > a ==> SecondLoad(c, s, steps, b, write)
      invariant k == z ==> Consumed(c, s0, n, After(c, s, steps, z - 1), After(c, s, steps, z), write)
    {
      AfterNext(c, s, steps, k);
      var e := After(c, s, steps, k);
      ConsumeStep(c, s0, n, e, steps[k], write);
      if e.consumer.ConsumeReadLoaded? {
        write := e.write;
        StillLoading(c, e, steps[k]);
        if steps[k] == ConsumeLoadsWrite { b := k; }
      }
      k := k + 1;
    }
    PointersOrdered(c, s, steps, a, b);
    PointersOrdered(c, s, steps, b, z);
  }

  /** Step `b` of a schedule is the second load of a call of `consume`, and sees `write`. */
  ghost predicate SecondLoad<T>(c: Config, s: State<T>, steps: seq<Step<T>>, b: nat, write: nat)
    requires ValidConfig(c) && Shaped(c, s.pages)
  {
    && b < |steps| && steps[b] == ConsumeLoadsWrite
    && After(c, s, steps, b).consumer.ConsumeReadLoaded? && write == After(c, s, steps, b).write
  }

  lemma ConsumeBegins<T>(c: Config, s0: State<T>, n: nat)
    requires Inv(c, s0) && s0.consumer.NoConsume?
    ensures Consuming(c, s0, n, Do(c, s0, CallConsume(n)), 0)
    ensures Do(c, s0, CallConsume(n)).consumer.ConsumeReadLoaded?
  {
    hide Contents, ProducerOk, ConsumerOk, History;
    assert Taken(s0.fates, s0.read) == 0;
  }

  lemma StillLoading<T>(c: Config, e: State<T>, step: Step<T>)
    requires Inv(c, e) && e.consumer.ConsumeReadLoaded?
    ensures step != ConsumeLoadsWrite ==> Do(c, e, step).consumer.ConsumeReadLoaded?
    ensures step == ConsumeLoadsWrite ==> !Do(c, e, step).consumer.ConsumeReadLoaded?
  {
    hide Contents, ProducerOk, ConsumerOk, History;
  }

  lemma PointersOrdered<T>(c: Config, s: State<T>, steps: seq<Step<T>>, a: nat, b: nat)
    requires ValidConfig(c) && Initial(c, s) && a <= b <= |steps|
    ensures var r, d := After(c, s, steps, a), After(c, s, steps, b);
      r.read <= d.read <= d.write == |d.stream| && r.write <= d.write
  {
    hide Contents, ProducerOk, ConsumerOk, History;
    RunsExtendFrom(c, s, steps, a, b);
  }

  // ----- pop

  /** A call of `pop` made at `s0` is under way at `r`. */
  ghost predicate PopUnderway<T>(s0: State<T>, r: State<T>) {
    && s0.read <= r.read && r.chunks == s0.chunks && Taken(r.fates, s0.read) == 0
    && match r.consumer
       case PopReadLoaded(read) => read == s0.read
       case Popping(read) => read == s0.read
       case _ => false
  }

  /** A call of `pop` made at `s0` has ended at `r`, with the step from `e`. */
  ghost predicate PopEnded<T>(s0: State<T>, e: State<T>, r: State<T>) {
    && r.chunks == s0.chunks
    && if Taken(r.fates, s0.read) == 0 then Outrun(e, s0.read) || e.read == e.write == s0.read
       else Taken(r.fates, s0.read) == 1 && s0.read < |r.fates| && r.fates[s0.read] == Popped
  }

  lemma PopCommitted<T>(c: Config, s0: State<T>, e: State<T>)
    requires Inv(c, e) && PopUnderway(s0, e) && e.consumer.Popping?
    ensures var r := Do(c, e, PopCommits);
      r.consumer.NoConsume? && PopEnded(s0, e, r)
  {
    hide Contents, History, ProducerOk, Taken;
    if e.read == s0.read {
      PointerAdvanced(c, e.read, 1);
      FatesRepeat(e.fates, s0.read, Popped, 1);
    } else {
      FateAt(e.fates, s0.read, s0.read);
    }
  }

  lemma PopStep<T>(c: Config, s0: State<T>, e: State<T>, step: Step<T>)
    requires Inv(c, e) && PopUnderway(s0, e)
    ensures var r := Do(c, e, step);
      && (PopUnderway(s0, r) || (r.consumer.NoConsume? && PopEnded(s0, e, r)))
      && (e.consumer.PopReadLoaded? ==>
            if step != PopLoadsWrite then r.consumer.PopReadLoaded?
            else if e.write == s0.read then r.consumer.NoConsume? && Taken(r.fates, s0.read) == 0
            else r.consumer.Popping?)
      && (e.consumer.Popping? ==>
            && !r.consumer.PopReadLoaded?
            && (r.consumer.NoConsume? && Taken(r.fates, s0.read) == 0 ==> Outrun(e, s0.read)))
  {
    hide Contents, History, ProducerOk, Taken, CommitPop;
    match step
    case PopCommits =>
      if e.consumer.Popping? {
        PopCommitted(c, s0, e);
        PopMisses(c, s0, e);
      } else {
        assert Do(c, e, PopCommits) == e by { PopIdle(c, e); }
      }
    case PopLoadsWrite =>
    case CallConsume(_) =>
    case ConsumeLoadsWrite =>
    case ConsumeCopies(_) =>
    case ConsumeCommits =>
    case CallPop =>
    case _ => ProducerSteps(c, e, step, s0.read);
  }

  lemma PopIdle<T>(c: Config, e: State<T>)
    requires ValidConfig(c) && Shaped(c, e.pages) && !e.consumer.Popping?
    ensures Do(c, e, PopCommits) == e
  {}

  /** A pop that has found an element takes none only if the producer was faster. */
  lemma PopMisses<T>(c: Config, s0: State<T>, e: State<T>)
    requires Inv(c, e) && PopUnderway(s0, e) && e.consumer.Popping?
    ensures Taken(Do(c, e, PopCommits).fates, s0.read) == 0 ==> Outrun(e, s0.read)
  {
    hide Contents, History, ProducerOk, Taken;
    PopCommitted(c, s0, e);
  }

  /** A call of `pop`, from the step that makes it to the first state after it in which the consumer is at
      rest again, under any schedule. It takes the position that its first load saw, and no other. It takes
      none instead only when the ring was empty at its second load, step `b`, or the producer has moved the
      read pointer between the call's load of it and its last step. */
  lemma PopOutcome<T>(c: Config, s: State<T>, steps: seq<Step<T>>, a: nat, z: nat) returns (b: nat)
    requires ValidConfig(c) && Initial(c, s) && a < z <= |steps| && steps[a] == CallPop
    requires After(c, s, steps, a).consumer.NoConsume? && After(c, s, steps, z).consumer.NoConsume?
    requires forall k | a < k < z :: !After(c, s, steps, k).consumer.NoConsume?
    ensures a < b < z && steps[b] == PopLoadsWrite && After(c, s, steps, b).consumer.PopReadLoaded?
    ensures var s0, second := After(c, s, steps, a), After(c, s, steps, b);
      var e, r := After(c, s, steps, z - 1), After(c, s, steps, z);
      && r.chunks == s0.chunks
      && if Taken(r.fates, s0.read) == 0 then second.read == second.write || Outrun(e, s0.read)
         else Taken(r.fates, s0.read) == 1 && s0.read < |r.fates| && r.fates[s0.read] == Popped
  {
    hide Do, Inv, Taken, Outrun, Extends;
    var s0 := After(c, s, steps, a);
    AfterNext(c, s, steps, a);
    PopBegins(c, s0);
    var k := a + 1;
    b := a;
    while k < z
      invariant a < k <= z && a <= b < k
      invariant k < z ==> PopUnderway(s0, After(c, s, steps, k))
      invariant (b == a) == After(c, s, steps, k).consumer.PopReadLoaded?
      invariant b > a ==>
                  && steps[b] == PopLoadsWrite && After(c, s, steps, b).consumer.PopReadLoaded?
                  && (b < k - 1 ==> After(c, s, steps, k - 1).consumer.Popping?)
                  && (After(c, s, steps, b).write == s0.read || b + 1 < z)
      invariant k == z ==> PopEnded(s0, After(c, s, steps, z - 1), After(c, s, steps, z))
      invariant k == z && b < z - 1 && Taken(After(c, s, steps, z).fates, s0.read) == 0 ==>
                  Outrun(After(c, s, steps, z - 1), s0.read)
    {
      AfterNext(c, s, steps, k);
      var e := After(c, s, steps, k);
      PopStep(c, s0, e, steps[k]);
      if e.consumer.PopReadLoaded? && steps[k] == PopLoadsWrite { b := k; }
      k := k + 1;
    }
    PointersOrdered(c, s, steps, a, b);
  }

  lemma PopBegins<T>(c: Config, s0: State<T>)
    requires Inv(c, s0) && s0.consumer.NoConsume?
    ensures PopUnderway(s0, Do(c, s0, CallPop)) && Do(c, s0, CallPop).consumer.PopReadLoaded?
  {
    hide Contents, ProducerOk, ConsumerOk, History;
    assert Taken(s0.fates, s0.read) == 0;
  }

  // ----- no waiting

  /** How many steps of its own a side needs at most to end its call. */
  function SupplyWork<T>(p: Producer<T>): int {
    match p
    case NoSupply => 0
    case SupplyReadLoaded(src, _) => |src| + 3
    case MakingRoom(_, count, _, _) => count + 2
    case Filling(_, count, _, stored) => count - |stored| + 1
    case SupplyThrew => 0
  }

  function ConsumeWork<T>(k: Consumer<T>): int {
    match k
    case NoConsume => 0
    case ConsumeReadLoaded(n, _) => n + 2
    case Copying(count, _, copied) => count - |copied| + 1
    case ConsumeThrew => 0
    case PopReadLoaded(_) => 2
    case Popping(_) => 1
  }

  function Range(n: nat): (r: set<nat>)
    ensures forall i: nat :: i in r <==> i < n
    ensures |r| == n
  {
    if n == 0 then {} else Range(n - 1) + {n - 1}
  }

  lemma FewerThan(stored: set<nat>, n: nat)
    requires forall i <- stored :: i < n
    ensures |stored| <= n
    ensures |stored| == n ==> forall i: nat | i < n :: i in stored
  {
    Within(stored, Range(n));
  }

  lemma Within(a: set<nat>, b: set<nat>)
    requires a <= b
    ensures |a| <= |b| && (|a| == |b| ==> a == b)
  {
    assert b == a + (b - a) && a !! (b - a);
    assert |b| == |a| + |b - a|;
  }

  /** No step makes the work of a call under way larger. */
  lemma SupplyWorkKept<T>(c: Config, s: State<T>, step: Step<T>)
    requires Inv(c, s) && !s.producer.NoSupply?
    ensures 0 < SupplyWork(s.producer) && SupplyWork(Do(c, s, step).producer) <= SupplyWork(s.producer)
  {
    hide Contents, ConsumerOk, History;
    if s.producer.Filling? { FewerThan(s.producer.stored, s.producer.count); }
  }

  /** A supply under way always has a step of its own that it can take, and that brings it nearer to its
      end. */
  lemma SupplyCanGoOn<T>(c: Config, s: State<T>) returns (step: Step<T>)
    requires Inv(c, s) && !s.producer.NoSupply?
    ensures SupplyWork(Do(c, s, step).producer) < SupplyWork(s.producer)
  {
    hide Contents, ConsumerOk, History;
    match s.producer
    case SupplyReadLoaded(_, _) => step := SupplyLoadsWrite;
    case MakingRoom(_, _, _, _) => step := SupplyMakesRoom;
    case Filling(src, count, _, stored) =>
      FewerThan(stored, count);
      if i: nat :| i < count && i !in stored {
        step := SupplyCopies(i);
      } else {
        step := SupplyPublishes;
      }
  }

  /** The steps from `a` to `z` that brought the supply under way nearer to its end. */
  ghost function SupplySteps<T>(c: Config, s: State<T>, steps: seq<Step<T>>, a: nat, z: nat): nat
    requires ValidConfig(c) && Shaped(c, s.pages) && a <= z <= |steps|
  {
    if a == z then 0
    else
      SupplySteps(c, s, steps, a, z - 1)
      + if SupplyWork(After(c, s, steps, z).producer) < SupplyWork(After(c, s, steps, z - 1).producer) then 1 else 0
  }

  /** Whatever the consumer does, a supply of `n` elements is over after at most `n + 3` steps that bring it
      nearer to its end, and until then there is always one that it can take. */
  lemma {:induction false} SupplyIsWaitFree<T>(c: Config, s: State<T>, steps: seq<Step<T>>, a: nat, z: nat, src: seq<T>)
    requires ValidConfig(c) && Initial(c, s) && a < z <= |steps| && steps[a] == CallSupply(src)
    requires After(c, s, steps, a).producer.NoSupply?
    requires forall k | a < k < z :: !After(c, s, steps, k).producer.NoSupply?
    ensures SupplySteps(c, s, steps, a + 1, z) + SupplyWork(After(c, s, steps, z).producer) <= |src| + 3
    ensures !After(c, s, steps, z).producer.NoSupply? ==>
              exists step :: SupplyWork(Do(c, After(c, s, steps, z), step).producer)
                             < SupplyWork(After(c, s, steps, z).producer)
    decreases z
  {
    hide Do, Inv;
    AfterNext(c, s, steps, z - 1);
    if z == a + 1 {
      CalledSupply(c, After(c, s, steps, a), src);
    } else {
      SupplyIsWaitFree(c, s, steps, a, z - 1, src);
      SupplyWorkKept(c, After(c, s, steps, z - 1), steps[z - 1]);
    }
    if !After(c, s, steps, z).producer.NoSupply? {
      var step := SupplyCanGoOn(c, After(c, s, steps, z));
    }
  }

  lemma CalledSupply<T>(c: Config, s: State<T>, src: seq<T>)
    requires ValidConfig(c) && Shaped(c, s.pages) && s.producer.NoSupply?
    ensures SupplyWork(Do(c, s, CallSupply(src)).producer) == |src| + 3
  {}

  lemma ConsumeWorkKept<T>(c: Config, s: State<T>, step: Step<T>)
    requires Inv(c, s) && !s.consumer.NoConsume?
    ensures 0 < ConsumeWork(s.consumer) && ConsumeWork(Do(c, s, step).consumer) <= ConsumeWork(s.consumer)
  {
    hide Contents, ProducerOk, History;
    if s.consumer.Copying? { FewerThan(s.consumer.copied.Keys, s.consumer.count); }
  }

  /** So does a call of the consumer. */
  lemma ConsumeCanGoOn<T>(c: Config, s: State<T>) returns (step: Step<T>)
    requires Inv(c, s) && !s.consumer.NoConsume?
    ensures ConsumeWork(Do(c, s, step).consumer) < ConsumeWork(s.consumer)
  {
    hide Contents, ProducerOk, History;
    match s.consumer
    case ConsumeReadLoaded(_, _) => step := ConsumeLoadsWrite;
    case Copying(count, read, copied) =>
      FewerThan(copied.Keys, count);
      if i: nat :| i < count && i !in copied {
        step := ConsumeCopies(i);
        WithinPage(c, read, i);
        assert (copied[i := At(c, s.pages, read + i)]).Keys == copied.Keys + {i};
      } else {
        step := ConsumeCommits;
      }
    case PopReadLoaded(_) => step := PopLoadsWrite;
    case Popping(_) => step := PopCommits;
  }

  ghost function ConsumeSteps<T>(c: Config, s: State<T>, steps: seq<Step<T>>, a: nat, z: nat): nat
    requires ValidConfig(c) && Shaped(c, s.pages) && a <= z <= |steps|
  {
    if a == z then 0
    else
      ConsumeSteps(c, s, steps, a, z - 1)
      + if ConsumeWork(After(c, s, steps, z).consumer) < ConsumeWork(After(c, s, steps, z - 1).consumer) then 1 else 0
  }

  /** Whatever the producer does, a call of `consume` for `n` elements is over after at most `n + 2` steps
      that bring it nearer to its end, and one of `pop` after two. */
  lemma {:induction false} ConsumeIsWaitFree<T>(c: Config, s: State<T>, steps: seq<Step<T>>, a: nat, z: nat)
    requires ValidConfig(c) && Initial(c, s) && a < z <= |steps| && (steps[a].CallConsume? || steps[a].CallPop?)
    requires After(c, s, steps, a).consumer.NoConsume?
    requires forall k | a < k < z :: !After(c, s, steps, k).consumer.NoConsume?
    ensures ConsumeSteps(c, s, steps, a + 1, z) + ConsumeWork(After(c, s, steps, z).consumer)
            <= if steps[a].CallConsume? then steps[a].numElements + 2 else 2
    ensures !After(c, s, steps, z).consumer.NoConsume? ==>
              exists step :: ConsumeWork(Do(c, After(c, s, steps, z), step).consumer)
                             < ConsumeWork(After(c, s, steps, z).consumer)
    decreases z
  {
    hide Do, Inv;
    AfterNext(c, s, steps, z - 1);
    if z == a + 1 {
      CalledConsume(c, After(c, s, steps, a), steps[a]);
    } else {
      ConsumeIsWaitFree(c, s, steps, a, z - 1);
      ConsumeWorkKept(c, After(c, s, steps, z - 1), steps[z - 1]);
    }
    if !After(c, s, steps, z).consumer.NoConsume? {
      var step := ConsumeCanGoOn(c, After(c, s, steps, z));
    }
  }

  lemma CalledConsume<T>(c: Config, s: State<T>, step: Step<T>)
    requires ValidConfig(c) && Shaped(c, s.pages) && s.consumer.NoConsume? && (step.CallConsume? || step.CallPop?)
    ensures ConsumeWork(Do(c, s, step).consumer) == if step.CallConsume? then step.numElements + 2 else 2
  {}
}
